/** `gz_gethufft`: the code lengths of a dynamic block's literal/length or
    distance alphabet, read as symbols of the code-length code (section 3.2.7
    of RFC 1951) and turned into a trie. */
module CodeLengths {
  import opened Base
  import opened BitStream
  import opened Trie
  import opened HuffTable

  /** The largest code length a code-length symbol can write directly. */
  const MAX_LEN: nat := 15

  /** The extra bits after a code-length symbol. */
  function ExtraBits(sym: nat): nat {
    if sym == 16 then 2 else if sym == 17 then 3 else if sym == 18 then 7 else 0
  }

  /** How often a repeat symbol writes its value before its extra bits are added. */
  function RepeatBase(sym: nat): nat {
    if sym == 16 then 3 else if sym == 17 then 3 else if sym == 18 then 11 else 1
  }

  /** The lengths read so far and the reader; `None` is the C's 0. */
  datatype LengthsRead = LengthsRead(lengths: Option<seq<nat>>, cur: Cursor)

  /** The loop of `gz_gethufft` with `lens` the lengths written so far. A symbol
      0..15 is written once; 16 repeats the previous length 3..6 times (and is
      refused before any length exists); 17 and 18 write 3..10 and 11..138
      zeros. A symbol outside 0..18 fails. A repeat that would run past `count`
      fails at once, before anything is written. */
  function ReadLengthsFrom(htclen: seq<Node>, c: Cursor, count: nat, lens: seq<nat>): (r: LengthsRead)
    requires |htclen| > 0 && Linked(htclen) && c.Valid() && |lens| <= count
    requires forall j :: 0 <= j < |lens| ==> lens[j] <= MAX_LEN
    ensures Follows(c, r.cur)
    ensures r.lengths.Some? ==> |r.lengths.value| == count && lens <= r.lengths.value
    ensures r.lengths.Some? ==> forall j :: 0 <= j < count ==> r.lengths.value[j] <= MAX_LEN
    decreases count - |lens|
  {
    if |lens| == count then LengthsRead(Some(lens), c)
    else
      var d := HuffDec(htclen, c);
      if d.sym < 0 || d.sym > 18 then LengthsRead(None, d.cur)
      else if d.sym == 16 && |lens| == 0 then LengthsRead(None, d.cur)
      else
        var val := if d.sym <= 15 then d.sym else if d.sym == 16 then lens[|lens| - 1] else 0;
        var e := ReadBits(d.cur, ExtraBits(d.sym));
        var rep := RepeatBase(d.sym) + e.value;
        if |lens| + rep > count then LengthsRead(None, e.cur)
        else
          var r := ReadLengthsFrom(htclen, e.cur, count, lens + Copies(rep, val));
          assert r.lengths.Some? ==> lens <= lens + Copies(rep, val) <= r.lengths.value;
          r
  }

  /** The refusals of the loop: a symbol outside 0..18 and a 16 before any
      length exists fail at once. */
  lemma ReadLengthsErrors(htclen: seq<Node>, c: Cursor, count: nat, lens: seq<nat>)
    requires |htclen| > 0 && Linked(htclen) && c.Valid() && |lens| < count
    requires forall j :: 0 <= j < |lens| ==> lens[j] <= MAX_LEN
    ensures var d := HuffDec(htclen, c);
      (d.sym < 0 || d.sym > 18 || (d.sym == 16 && |lens| == 0)) ==>
        ReadLengthsFrom(htclen, c, count, lens) == LengthsRead(None, d.cur)
  {
  }

  /** The repeat counts of section 3.2.7 of RFC 1951: 16 repeats 3..6 times,
      17 writes 3..10 zeros and 18 writes 11..138 zeros. */
  lemma RepeatCounts(sym: nat, c: Cursor)
    requires c.Valid() && 16 <= sym <= 18
    ensures var rep := RepeatBase(sym) + ReadBits(c, ExtraBits(sym)).value;
      && (sym == 16 ==> 3 <= rep <= 6)
      && (sym == 17 ==> 3 <= rep <= 10)
      && (sym == 18 ==> 11 <= rep <= 138)
  {
    assert Pow2(2) == 4 && Pow2(3) == 8 && Pow2(7) == 128;
  }

  /** A trie, or none, and the reader. */
  datatype TableRead = TableRead(ht: Option<seq<Node>>, cur: Cursor)

  /** `gz_gethufft(stream, lengths, count, maxcount, htclen, ht, htmax)`: the
      `count` lengths read, padded with zeros up to `maxcount`, are built into
      a trie of `htmax` nodes. */
  function GetHuffT(c: Cursor, count: nat, maxcount: nat, htclen: seq<Node>, htmax: nat): (r: TableRead)
    requires |htclen| > 0 && Linked(htclen) && c.Valid()
    requires count <= maxcount && 0 < maxcount && 0 < htmax
    ensures Follows(c, r.cur)
    ensures r.ht.Some? ==>
      var lr := ReadLengthsFrom(htclen, c, count, []);
      && lr.lengths.Some?
      && |r.ht.value| == htmax
      && Decodes(r.ht.value, CodeBook(lr.lengths.value + Zeros(maxcount - count)))
  {
    var lr := ReadLengthsFrom(htclen, c, count, []);
    match lr.lengths
    case None => TableRead(None, lr.cur)
    case Some(lens) => TableRead(BuildHt(lens + Zeros(maxcount - count), htmax), lr.cur)
  }

  /** `n` copies of the length `v`: what a repeat instruction stores. */
  function Copies(n: nat, v: nat): (s: seq<nat>)
    ensures |s| == n && forall j :: 0 <= j < n ==> s[j] == v
  {
    seq(n, _ => v)
  }

  function Zeros(n: nat): (z: seq<nat>)
    ensures |z| == n && forall j :: 0 <= j < n ==> z[j] == 0
  {
    seq(n, _ => 0)
  }

  // ---------------------------------------------------------------------------
  // What an encoder writes

  /** One code-length instruction: a symbol of the code-length alphabet and
      the value of its extra bits. */
  datatype Instr = Instr(sym: nat, extra: nat)

  /** The lengths an instruction appends after `lens`, as section 3.2.7 of
      RFC 1951 defines them (a leading 16, which `Fits` rules out, copies 0). */
  function Apply(lens: seq<nat>, ins: Instr): seq<nat> {
    var val := if ins.sym <= 15 then ins.sym else if ins.sym == 16 && |lens| > 0 then lens[|lens| - 1] else 0;
    lens + Copies(RepeatBase(ins.sym) + ins.extra, val)
  }

  /** `instrs`, applied after `lens`, are well formed and fill exactly `count`
      lengths: every symbol is 0..18 with an extra value that fits its bits, no
      16 comes first, and no repeat runs past `count`. */
  ghost predicate Fits(lens: seq<nat>, instrs: seq<Instr>, count: nat)
    decreases |instrs|
  {
    if instrs == [] then |lens| == count
    else
      var ins := instrs[0];
      && ins.sym <= 18
      && ins.extra < Pow2(ExtraBits(ins.sym))
      && (ins.sym == 16 ==> |lens| > 0)
      && |lens| + RepeatBase(ins.sym) + ins.extra <= count
      && Fits(Apply(lens, ins), instrs[1..], count)
  }

  /** The lengths `instrs` produce after `lens`. */
  function Expand(lens: seq<nat>, instrs: seq<Instr>): seq<nat>
    decreases |instrs|
  {
    if instrs == [] then lens
    else Expand(Apply(lens, instrs[0]), instrs[1..])
  }

  /** The bits of `instrs`: each symbol's code, then its extra bits. */
  function Encode(instrs: seq<Instr>, paths: seq<seq<bit>>): (bits: seq<bit>)
    requires |paths| == 19
    requires forall k :: 0 <= k < |instrs| ==> instrs[k].sym <= 18
    decreases |instrs|
  {
    if instrs == [] then []
    else
      var ins := instrs[0];
      paths[ins.sym] + LsbBits(ins.extra, ExtraBits(ins.sym)) + Encode(instrs[1..], paths)
  }

  /** `paths[s]` is the code of symbol `s` in the code-length code `es`, for
      every symbol `instrs` use. */
  ghost predicate CodesFor(es: set<Entry>, paths: seq<seq<bit>>, instrs: seq<Instr>) {
    && |paths| == 19
    && forall k :: 0 <= k < |instrs| ==>
         instrs[k].sym <= 18 && |paths[instrs[k].sym]| > 0 && Entry(paths[instrs[k].sym], instrs[k].sym) in es
  }

  /** Fed the encoding of well-formed instructions under a prefix-free
      code-length code, the loop returns exactly the lengths they describe and
      stops right after their last bit. */
  lemma {:induction false} ReadLengthsRoundTrip(
    htclen: seq<Node>, es: set<Entry>, paths: seq<seq<bit>>,
    instrs: seq<Instr>, c: Cursor, count: nat, lens: seq<nat>)
    requires Decodes(htclen, es) && PrefixFree(es) && CodesFor(es, paths, instrs)
    requires c.Valid() && |lens| <= count
    requires forall j :: 0 <= j < |lens| ==> lens[j] <= MAX_LEN
    requires Fits(lens, instrs, count)
    requires BitsAt(c, Encode(instrs, paths))
    ensures ReadLengthsFrom(htclen, c, count, lens)
        == LengthsRead(Some(Expand(lens, instrs)), c.(pos := c.pos + |Encode(instrs, paths)|))
    decreases |instrs|
  {
    if instrs != [] {
      var ins, tail := instrs[0], instrs[1..];
      var head := paths[ins.sym] + LsbBits(ins.extra, ExtraBits(ins.sym));
      EncodeFirst(instrs, paths, es);
      BitsAtSplit(c, head, Encode(tail, paths));
      OneInstr(htclen, es, paths, ins, c, count, lens);
      var c2, lens2 := c.(pos := c.pos + |paths[ins.sym]| + ExtraBits(ins.sym)), Apply(lens, ins);
      SameCursor(c.(pos := c.pos + |head|), c2);
      assert Fits(lens2, tail, count);
      ReadLengthsRoundTrip(htclen, es, paths, tail, c2, count, lens2);
      assert Expand(lens, instrs) == Expand(lens2, tail);
      SameCursor(c2.(pos := c2.pos + |Encode(tail, paths)|), c.(pos := c.pos + |Encode(instrs, paths)|));
    }
  }

  /** Instructions that fit `count` lengths spell exactly `count`. */
  lemma {:induction false} ExpandFills(lens: seq<nat>, instrs: seq<Instr>, count: nat)
    requires Fits(lens, instrs, count)
    ensures |Expand(lens, instrs)| == count
    decreases |instrs|
  {
    if instrs != [] {
      ExpandFills(Apply(lens, instrs[0]), instrs[1..], count);
    }
  }

  /** Fed the encoding of well-formed instructions that fill `m <= count`
      lengths, the loop reaches the state after them: reading from the start
      is reading on from `rest`, the cursor past their bits, with their
      lengths already written. */
  lemma {:induction false} ReadLengthsPrefix(
    htclen: seq<Node>, es: set<Entry>, paths: seq<seq<bit>>,
    instrs: seq<Instr>, c: Cursor, count: nat, m: nat, lens: seq<nat>, rest: Cursor)
    requires Decodes(htclen, es) && PrefixFree(es) && CodesFor(es, paths, instrs)
    requires c.Valid() && m <= count
    requires forall j :: 0 <= j < |lens| ==> lens[j] <= MAX_LEN
    requires Fits(lens, instrs, m)
    requires BitsAt(c, Encode(instrs, paths)) && rest == c.(pos := c.pos + |Encode(instrs, paths)|)
    ensures rest.Valid() && |lens| <= m && |Expand(lens, instrs)| == m
    ensures forall j :: 0 <= j < m ==> Expand(lens, instrs)[j] <= MAX_LEN
    ensures ReadLengthsFrom(htclen, c, count, lens) == ReadLengthsFrom(htclen, rest, count, Expand(lens, instrs))
    decreases |instrs|
  {
    ExpandFills(lens, instrs, m);
    if instrs != [] {
      var ins, tail := instrs[0], instrs[1..];
      var head := paths[ins.sym] + LsbBits(ins.extra, ExtraBits(ins.sym));
      EncodeFirst(instrs, paths, es);
      BitsAtSplit(c, head, Encode(tail, paths));
      OneInstr(htclen, es, paths, ins, c, count, lens);
      var c2, lens2 := c.(pos := c.pos + |paths[ins.sym]| + ExtraBits(ins.sym)), Apply(lens, ins);
      SameCursor(c.(pos := c.pos + |head|), c2);
      assert Fits(lens2, tail, m);
      SameCursor(c2.(pos := c2.pos + |Encode(tail, paths)|), rest);
      ReadLengthsPrefix(htclen, es, paths, tail, c2, count, m, lens2, rest);
      assert Expand(lens, instrs) == Expand(lens2, tail);
    } else {
      assert rest == c;
    }
  }

  /** Lengths are read one array at a time: after well-formed instructions
      that fill `m < count` lengths, a repeat that would run past `count`
      fails the read, although section 3.2.7 of RFC 1951 reads the same
      instructions as the start of one longer sequence of lengths. */
  lemma RepeatPastCountRefused(
    htclen: seq<Node>, es: set<Entry>, paths: seq<seq<bit>>,
    instrs: seq<Instr>, ins: Instr, c: Cursor, count: nat, m: nat)
    requires Decodes(htclen, es) && PrefixFree(es) && CodesFor(es, paths, instrs)
    requires 16 <= ins.sym <= 18 && |paths[ins.sym]| > 0 && Entry(paths[ins.sym], ins.sym) in es
    requires ins.extra < Pow2(ExtraBits(ins.sym)) && (ins.sym == 16 ==> m > 0)
    requires c.Valid() && BitsAt(c, Encode(instrs, paths) + (paths[ins.sym] + LsbBits(ins.extra, ExtraBits(ins.sym))))
    requires Fits([], instrs, m) && m < count < m + RepeatBase(ins.sym) + ins.extra
    ensures ReadLengthsFrom(htclen, c, count, []).lengths == None
    ensures Fits([], instrs + [ins], m + RepeatBase(ins.sym) + ins.extra)
  {
    var code, field := paths[ins.sym], LsbBits(ins.extra, ExtraBits(ins.sym));
    var c1 := c.(pos := c.pos + |Encode(instrs, paths)|);
    BitsAtRest(c, Encode(instrs, paths), code + field, c1);
    ReadLengthsPrefix(htclen, es, paths, instrs, c, count, m, [], c1);
    BitsAtSplit(c1, code, field);
    HuffDecRoundTrip(htclen, es, Entry(code, ins.sym), c1);
    var c2 := c1.(pos := c1.pos + |code|);
    ReadBitsField(c2, ins.extra, ExtraBits(ins.sym));
    var lens := Expand([], instrs);
    RepeatStepRefused(htclen, c1, count, lens, ins, c2, c2.(pos := c2.pos + ExtraBits(ins.sym)));
    FitsSnoc([], instrs, ins, m);
  }

  /** One turn of the loop: a repeat whose run would pass `count` ends the
      read with no lengths, right after its extra bits. */
  lemma RepeatStepRefused(htclen: seq<Node>, c: Cursor, count: nat, lens: seq<nat>, ins: Instr, c1: Cursor, c2: Cursor)
    requires |htclen| > 0 && Linked(htclen) && c.Valid() && c1.Valid()
    requires |lens| < count && forall j :: 0 <= j < |lens| ==> lens[j] <= MAX_LEN
    requires 16 <= ins.sym <= 18 && (ins.sym == 16 ==> |lens| > 0)
    requires |lens| + RepeatBase(ins.sym) + ins.extra > count
    requires HuffDec(htclen, c) == Decoded(ins.sym, c1)
    requires ReadBits(c1, ExtraBits(ins.sym)) == Read(ins.extra, c2)
    ensures ReadLengthsFrom(htclen, c, count, lens) == LengthsRead(None, c2)
  {
  }

  /** An instruction that is well formed after instructions filling `m`
      lengths extends them to `m` plus its run. */
  lemma {:induction false} FitsSnoc(lens: seq<nat>, instrs: seq<Instr>, ins: Instr, m: nat)
    requires Fits(lens, instrs, m)
    requires ins.sym <= 18 && ins.extra < Pow2(ExtraBits(ins.sym)) && (ins.sym == 16 ==> m > 0)
    ensures Fits(lens, instrs + [ins], m + RepeatBase(ins.sym) + ins.extra)
    decreases |instrs|
  {
    if instrs == [] {
      assert [ins][1..] == [];
    } else {
      assert (instrs + [ins])[0] == instrs[0] && (instrs + [ins])[1..] == instrs[1..] + [ins];
      FitsSnoc(Apply(lens, instrs[0]), instrs[1..], ins, m);
    }
  }

  /** The encoding of a nonempty list starts with its first instruction; the
      rest of the list keeps its codes. */
  lemma EncodeFirst(instrs: seq<Instr>, paths: seq<seq<bit>>, es: set<Entry>)
    requires instrs != [] && CodesFor(es, paths, instrs)
    ensures Encode(instrs, paths)
      == (paths[instrs[0].sym] + LsbBits(instrs[0].extra, ExtraBits(instrs[0].sym))) + Encode(instrs[1..], paths)
    ensures CodesFor(es, paths, instrs[1..])
  {
    var tail := instrs[1..];
    forall k | 0 <= k < |tail|
      ensures tail[k] == instrs[k + 1]
    {
    }
  }

  /** One instruction: its symbol's code and extra bits are consumed and its
      lengths appended. */
  lemma OneInstr(
    htclen: seq<Node>, es: set<Entry>, paths: seq<seq<bit>>,
    ins: Instr, c: Cursor, count: nat, lens: seq<nat>)
    requires Decodes(htclen, es) && PrefixFree(es)
    requires |paths| == 19 && ins.sym <= 18 && |paths[ins.sym]| > 0 && Entry(paths[ins.sym], ins.sym) in es
    requires c.Valid() && forall j :: 0 <= j < |lens| ==> lens[j] <= MAX_LEN
    requires ins.extra < Pow2(ExtraBits(ins.sym)) && (ins.sym == 16 ==> |lens| > 0)
    requires |lens| + RepeatBase(ins.sym) + ins.extra <= count
    requires BitsAt(c, paths[ins.sym] + LsbBits(ins.extra, ExtraBits(ins.sym)))
    ensures |Apply(lens, ins)| <= count
    ensures forall j :: 0 <= j < |Apply(lens, ins)| ==> Apply(lens, ins)[j] <= MAX_LEN
    ensures ReadLengthsFrom(htclen, c, count, lens)
        == ReadLengthsFrom(htclen, c.(pos := c.pos + |paths[ins.sym]| + ExtraBits(ins.sym)), count, Apply(lens, ins))
  {
    var code := paths[ins.sym];
    var field := LsbBits(ins.extra, ExtraBits(ins.sym));
    BitsAtSplit(c, code, field);
    var c1 := c.(pos := c.pos + |code|);
    HuffDecRoundTrip(htclen, es, Entry(code, ins.sym), c);
    ReadBitsField(c1, ins.extra, ExtraBits(ins.sym));
    ApplyKeepsBound(lens, ins);
    var c2 := c.(pos := c.pos + |paths[ins.sym]| + ExtraBits(ins.sym));
    SameCursor(c1.(pos := c1.pos + ExtraBits(ins.sym)), c2);
    StepGivenDecode(htclen, c, count, lens, ins, c1, c2);
  }

  lemma ApplyKeepsBound(lens: seq<nat>, ins: Instr)
    requires forall j :: 0 <= j < |lens| ==> lens[j] <= MAX_LEN
    requires ins.sym <= 18
    ensures forall j :: 0 <= j < |Apply(lens, ins)| ==> Apply(lens, ins)[j] <= MAX_LEN
  {
  }

  /** One turn of the loop once the symbol and its extra bits are known. */
  lemma StepGivenDecode(htclen: seq<Node>, c: Cursor, count: nat, lens: seq<nat>, ins: Instr, c1: Cursor, c2: Cursor)
    requires |htclen| > 0 && Linked(htclen) && c.Valid() && c1.Valid()
    requires forall j :: 0 <= j < |lens| ==> lens[j] <= MAX_LEN
    requires ins.sym <= 18 && (ins.sym == 16 ==> |lens| > 0)
    requires |lens| + RepeatBase(ins.sym) + ins.extra <= count
    requires HuffDec(htclen, c) == Decoded(ins.sym, c1)
    requires ReadBits(c1, ExtraBits(ins.sym)) == Read(ins.extra, c2)
    requires forall j :: 0 <= j < |Apply(lens, ins)| ==> Apply(lens, ins)[j] <= MAX_LEN
    ensures c2.Valid()
    ensures ReadLengthsFrom(htclen, c, count, lens) == ReadLengthsFrom(htclen, c2, count, Apply(lens, ins))
  {
    var val := if ins.sym <= 15 then ins.sym else if ins.sym == 16 then lens[|lens| - 1] else 0;
    assert Apply(lens, ins) == lens + Copies(RepeatBase(ins.sym) + ins.extra, val);
  }
  // ---------------------------------------------------------------------------
  // The repeat loop as written

  /** The outcome of the C loop: the lengths, a refusal (return 0), or a write
      past the end of the `maxcount`-entry array. */
  datatype AsWritten = Filled(lengths: seq<nat>) | Refused | OutOfBounds

  /** The loop of `gz_gethufft` exactly as written: a repeat writes all its
      lengths whatever `count` is, and only the test `i != count` after the
      loop refuses an overshoot, by then possibly past the array's end. */
  function ReadLengthsAsWritten(htclen: seq<Node>, c: Cursor, count: nat, maxcount: nat, lens: seq<nat>): (w: AsWritten)
    requires |htclen| > 0 && Linked(htclen) && c.Valid() && |lens| <= maxcount
    decreases count - |lens|
  {
    if |lens| >= count then
      if |lens| == count then Filled(lens) else Refused
    else
      var d := HuffDec(htclen, c);
      if d.sym < 0 || d.sym > 18 then Refused
      else if d.sym == 16 && |lens| == 0 then Refused
      else
        var val := if d.sym <= 15 then d.sym else if d.sym == 16 then lens[|lens| - 1] else 0;
        var e := ReadBits(d.cur, ExtraBits(d.sym));
        var rep := RepeatBase(d.sym) + e.value;
        if |lens| + rep > maxcount then OutOfBounds
        else ReadLengthsAsWritten(htclen, e.cur, count, maxcount, lens + Copies(rep, val))
  }

  /** Whenever the loop as written stays inside the array, it succeeds or
      fails exactly as the early-refusing loop of this model does. */
  lemma {:induction false} AsWrittenAgrees(htclen: seq<Node>, c: Cursor, count: nat, maxcount: nat, lens: seq<nat>)
    requires |htclen| > 0 && Linked(htclen) && c.Valid() && |lens| <= count <= maxcount
    requires forall j :: 0 <= j < |lens| ==> lens[j] <= MAX_LEN
    ensures var w := ReadLengthsAsWritten(htclen, c, count, maxcount, lens);
      var r := ReadLengthsFrom(htclen, c, count, lens);
      && (w.Filled? ==> r.lengths == Some(w.lengths))
      && (r.lengths.Some? ==> w == Filled(r.lengths.value))
    decreases count - |lens|, 1
  {
    if |lens| < count {
      var d := HuffDec(htclen, c);
      if 0 <= d.sym <= 18 && !(d.sym == 16 && |lens| == 0) {
        AgreeAfterSymbol(htclen, c, count, maxcount, lens);
      }
    }
  }

  lemma {:induction false} AgreeAfterSymbol(htclen: seq<Node>, c: Cursor, count: nat, maxcount: nat, lens: seq<nat>)
    requires |htclen| > 0 && Linked(htclen) && c.Valid() && |lens| < count <= maxcount
    requires forall j :: 0 <= j < |lens| ==> lens[j] <= MAX_LEN
    requires var d := HuffDec(htclen, c); 0 <= d.sym <= 18 && !(d.sym == 16 && |lens| == 0)
    ensures var w := ReadLengthsAsWritten(htclen, c, count, maxcount, lens);
      var r := ReadLengthsFrom(htclen, c, count, lens);
      && (w.Filled? ==> r.lengths == Some(w.lengths))
      && (r.lengths.Some? ==> w == Filled(r.lengths.value))
    decreases count - |lens|, 0
  {
    var d := HuffDec(htclen, c);
    var val := if d.sym <= 15 then d.sym else if d.sym == 16 then lens[|lens| - 1] else 0;
    var e := ReadBits(d.cur, ExtraBits(d.sym));
    var rep := RepeatBase(d.sym) + e.value;
    var lens2 := lens + Copies(rep, val);
    if |lens| + rep <= count {
      AsWrittenAgrees(htclen, e.cur, count, maxcount, lens2);
    } else if |lens| + rep <= maxcount {
      OvershootRefused(htclen, e.cur, count, maxcount, lens2);
    }
  }

  lemma OvershootRefused(htclen: seq<Node>, c: Cursor, count: nat, maxcount: nat, lens: seq<nat>)
    requires |htclen| > 0 && Linked(htclen) && c.Valid() && count < |lens| <= maxcount
    ensures ReadLengthsAsWritten(htclen, c, count, maxcount, lens) == Refused
  {
  }

  /** The overrun: with 287 of 288 literal/length code lengths read, a
      code-length symbol 18 (with extra bits 0) makes the loop as written
      store 11 zeros at indices 287..297 of the 288-entry array, while the
      model refuses the stream. */
  lemma RepeatOverrunsArray(htclen: seq<Node>, es: set<Entry>, p: seq<bit>, c: Cursor, lens: seq<nat>)
    requires Decodes(htclen, es) && PrefixFree(es)
    requires |p| > 0 && Entry(p, 18) in es
    requires c.Valid() && BitsAt(c, p + LsbBits(0, 7))
    requires |lens| == 287 && forall j :: 0 <= j < |lens| ==> lens[j] <= MAX_LEN
    ensures ReadLengthsAsWritten(htclen, c, 288, 288, lens) == OutOfBounds
    ensures ReadLengthsFrom(htclen, c, 288, lens).lengths == None
  {
    BitsAtSplit(c, p, LsbBits(0, 7));
    HuffDecRoundTrip(htclen, es, Entry(p, 18), c);
    var c1 := c.(pos := c.pos + |p|);
    ReadBitsField(c1, 0, 7);
  }
}
