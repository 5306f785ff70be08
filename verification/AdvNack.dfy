/** The retransmission requests of adv.rs: bitmask and range entries over the full 32-bit sequence,
    packed from a list in any order, with repeats, across the 2^32 wrap. */
module AdvNack {
  import opened Bytes
  import opened Bits

  const MAX_NACK_DECODE_RANGE: nat := 10_000
  const WINDOW: nat := 32

  /** `start`, and `start + i + 1` for each set bit `i`. */
  datatype NackBitmask = NackBitmask(start: u32, blp: u32)

  /** `start` to `start + nalp`. */
  datatype NackRange = NackRange(start: u32, nalp: u32)

  // ---- Positions: signed distances from the first element ----

  function KeyOf(pivot: u32, x: u32): (k: int)
    ensures -0x8000_0000 <= k < 0x8000_0000
  {
    AsI32(x - pivot)
  }

  function ValueAt(pivot: u32, k: int): u32 {
    (pivot + k) % 0x1_0000_0000
  }

  lemma KeyAndBack(pivot: u32, x: u32)
    ensures ValueAt(pivot, KeyOf(pivot, x)) == x
  {
    var k := KeyOf(pivot, x);
    assert (x - pivot - k) % 0x1_0000_0000 == 0;
    ResidueBack(pivot, x, k);
  }

  lemma ResidueBack(pivot: u32, x: u32, k: int)
    requires (x - pivot - k) % 0x1_0000_0000 == 0
    ensures (pivot + k) % 0x1_0000_0000 == x
  {
    var q := (x - pivot - k) / 0x1_0000_0000;
    assert pivot + k == x - q * 0x1_0000_0000;
  }

  /** Below 2^32 a wrapped distance is the distance. */
  lemma Delta(pivot: u32, a: int, b: int)
    requires 0 <= b - a < 0x1_0000_0000
    ensures WrapSub32(ValueAt(pivot, b), ValueAt(pivot, a)) == b - a
    ensures ValueAt(pivot, b) == ValueAt(pivot, a) <==> a == b
    ensures ValueAt(pivot, b) == WrapAdd32(ValueAt(pivot, a), 1) <==> b == a + 1
  {
    SubResidue(pivot + b, pivot + a);
    NextValue(pivot, a);
    if b == a + 1 {
    } else if b > a {
      SubResidue(pivot + b, pivot + (a + 1));
    } else {
      SubResidue(pivot + (a + 1), pivot + a);
    }
  }

  lemma SubResidue(x: int, y: int)
    requires 0 <= x - y < 0x1_0000_0000
    ensures (x % 0x1_0000_0000 - y % 0x1_0000_0000) % 0x1_0000_0000 == x - y
  {}

  lemma NextValue(pivot: u32, a: int)
    ensures WrapAdd32(ValueAt(pivot, a), 1) == ValueAt(pivot, a + 1)
  {}

  function Keys(pivot: u32, s: seq<u32>): (r: seq<int>)
    ensures |r| == |s|
    ensures forall i :: 0 <= i < |r| ==> r[i] == KeyOf(pivot, s[i])
  {
    if s == [] then [] else [KeyOf(pivot, s[0])] + Keys(pivot, s[1..])
  }

  function Values(pivot: u32, ks: seq<int>): (r: seq<u32>)
    ensures |r| == |ks|
    ensures forall i :: 0 <= i < |r| ==> r[i] == ValueAt(pivot, ks[i])
  {
    if ks == [] then [] else [ValueAt(pivot, ks[0])] + Values(pivot, ks[1..])
  }

  lemma {:induction false} ValuesOfSum(pivot: u32, a: seq<int>, b: seq<int>)
    ensures Values(pivot, a + b) == Values(pivot, a) + Values(pivot, b)
  {}

  // ---- Sorting ----

  /** Nowhere descending, from `last` on. */
  predicate Upward(last: int, ks: seq<int>)
    decreases |ks|
  {
    ks == [] || (last <= ks[0] && Upward(ks[0], ks[1..]))
  }

  predicate Ascending(ks: seq<int>) {
    ks == [] || Upward(ks[0], ks[1..])
  }

  lemma {:induction false} UpwardAt(last: int, ks: seq<int>, i: nat, j: nat)
    requires Upward(last, ks) && i <= j < |ks|
    ensures last <= ks[i] <= ks[j]
    decreases |ks|
  {
    if i > 0 {
      UpwardAt(ks[0], ks[1..], i - 1, j - 1);
    } else if j > 0 {
      UpwardAt(ks[0], ks[1..], 0, j - 1);
    }
  }

  lemma AscendingAt(ks: seq<int>, i: nat, j: nat)
    requires Ascending(ks) && i <= j < |ks|
    ensures ks[i] <= ks[j]
  {
    if j > 0 {
      if i > 0 {
        UpwardAt(ks[0], ks[1..], i - 1, j - 1);
      } else {
        UpwardAt(ks[0], ks[1..], 0, j - 1);
      }
    }
  }

  predicate StrictlyAscending(ks: seq<int>) {
    forall i, j :: 0 <= i < j < |ks| ==> ks[i] < ks[j]
  }

  function Insert(k: int, ks: seq<int>): seq<int> {
    if ks == [] || k < ks[0] then [k] + ks else [ks[0]] + Insert(k, ks[1..])
  }

  function Sort(ks: seq<int>): seq<int> {
    if ks == [] then [] else Insert(ks[|ks| - 1], Sort(ks[..|ks| - 1]))
  }

  lemma {:induction false} InsertIsSorted(last: int, k: int, ks: seq<int>)
    requires Upward(last, ks) && last <= k
    ensures Upward(last, Insert(k, ks))
    ensures multiset(Insert(k, ks)) == multiset(ks) + multiset{k}
    decreases |ks|
  {
    if ks != [] {
      assert ks == [ks[0]] + ks[1..];
      if k >= ks[0] {
        InsertIsSorted(ks[0], k, ks[1..]);
      }
    }
  }

  lemma {:induction false} SortIsSorted(ks: seq<int>, least: int)
    requires forall i :: 0 <= i < |ks| ==> least <= ks[i]
    ensures Upward(least, Sort(ks)) && multiset(Sort(ks)) == multiset(ks)
  {
    if ks != [] {
      var n := |ks| - 1;
      SortIsSorted(ks[..n], least);
      InsertIsSorted(least, ks[n], Sort(ks[..n]));
      assert ks == ks[..n] + [ks[n]];
    }
  }

  /** The sorted list as positions; the pivot is the first element as given. */
  function SortedKeys(missing: seq<u32>): seq<int>
    requires missing != []
  {
    Sort(Keys(missing[0], missing))
  }

  predicate InRange(ks: seq<int>) {
    forall i :: 0 <= i < |ks| ==> -0x8000_0000 <= ks[i] < 0x8000_0000
  }

  lemma SortedKeysAre(missing: seq<u32>)
    requires missing != []
    ensures Ascending(SortedKeys(missing)) && InRange(SortedKeys(missing)) && |SortedKeys(missing)| == |missing|
    ensures forall x :: x in Values(missing[0], SortedKeys(missing)) <==> x in missing
  {
    var pivot, keys, ks := missing[0], Keys(missing[0], missing), SortedKeys(missing);
    SortIsSorted(keys, -0x8000_0000);
    assert |multiset(ks)| == |ks| && |multiset(keys)| == |keys|;
    forall i | 0 <= i < |ks|
      ensures -0x8000_0000 <= ks[i] < 0x8000_0000 && ValueAt(pivot, ks[i]) in missing
    {
      assert ks[i] in multiset(keys);
      var j :| 0 <= j < |keys| && keys[j] == ks[i];
      KeyAndBack(pivot, missing[j]);
    }
    forall x | x in missing ensures x in Values(pivot, ks) {
      var j :| 0 <= j < |missing| && missing[j] == x;
      KeyAndBack(pivot, x);
      assert keys[j] in multiset(ks);
      var i :| 0 <= i < |ks| && ks[i] == keys[j];
      assert Values(pivot, ks)[i] == x;
    }
  }

  /** The entries behind `last` that differ from the one before. */
  function Fresh(last: int, ks: seq<int>): seq<int>
    decreases |ks|
  {
    if ks == [] then []
    else if ks[0] == last then Fresh(last, ks[1..])
    else [ks[0]] + Fresh(ks[0], ks[1..])
  }

  /** Every distinct entry of an ascending list once. */
  function Distinct(ks: seq<int>): seq<int> {
    if ks == [] then [] else [ks[0]] + Fresh(ks[0], ks[1..])
  }

  lemma {:induction false} FreshFacts(last: int, ks: seq<int>)
    requires Upward(last, ks)
    ensures StrictlyAscending([last] + Fresh(last, ks))
    ensures forall k :: k in Fresh(last, ks) <==> k in ks && k != last
    decreases |ks|
  {
    if ks != [] {
      assert ks == [ks[0]] + ks[1..];
      FreshFacts(ks[0], ks[1..]);
      var rest := [ks[0]] + Fresh(ks[0], ks[1..]);
      if ks[0] != last {
        assert forall i :: 0 < i < |rest| ==> rest[0] < rest[i];
        NotAmong(last, ks[0], ks[1..]);
      }
    }
  }

  lemma NotAmong(last: int, first: int, ks: seq<int>)
    requires last < first && Upward(first, ks)
    ensures last !in ks
  {
    if last in ks {
      var i :| 0 <= i < |ks| && ks[i] == last;
      UpwardAt(first, ks, i, i);
    }
  }

  lemma DistinctFacts(ks: seq<int>)
    requires Ascending(ks)
    ensures StrictlyAscending(Distinct(ks))
    ensures forall k :: k in Distinct(ks) <==> k in ks
  {
    if ks != [] {
      assert ks == [ks[0]] + ks[1..];
      FreshFacts(ks[0], ks[1..]);
    }
  }

  /** Cut before a new value, the distinct entries are those of the two parts. */
  lemma {:induction false} FreshOfSum(last: int, a: seq<int>, b: seq<int>)
    requires b != [] ==> b[0] != (if a == [] then last else a[|a| - 1])
    ensures Fresh(last, a + b) == Fresh(last, a) + Distinct(b)
    decreases |a|
  {
    if a == [] {
      assert a + b == b;
    } else {
      assert (a + b)[1..] == a[1..] + b;
      FreshOfSum(a[0], a[1..], b);
    }
  }

  // ---- Bitmask entries ----

  function MaskKeys(start: int, blp: nat, i: nat): seq<int>
    decreases WINDOW - i
  {
    if i >= WINDOW then [] else (if Bit(blp, i) then [start + i + 1] else []) + MaskKeys(start, blp, i + 1)
  }

  /** What an entry asks for, as positions. */
  function EntryKeys(start: int, blp: nat): seq<int> {
    [start] + MaskKeys(start, blp, 0)
  }

  function WithBit(blp: u32, k: nat): u32
    requires k < WINDOW
  {
    MaskIs32Bits();
    SetBitBound(blp, k, WINDOW);
    SetBit(blp, k)
  }

  lemma MaskIs32Bits()
    ensures Pow2(WINDOW) == 0x1_0000_0000
  {
    assert Pow2(8) == 0x100;
    assert Pow2(16) == 0x1_0000;
    assert Pow2(24) == 0x100_0000;
  }

  /** How many entries the window from `start` takes in, and the mask it then has. */
  function Absorb(start: int, blp: u32, rest: seq<int>): (r: (u32, nat))
    ensures r.1 <= |rest|
    ensures r.1 < |rest| ==> rest[r.1] - start > WINDOW
    decreases |rest|
  {
    if rest == [] || rest[0] - start > WINDOW then (blp, 0)
    else
      var d := rest[0] - start;
      var r := Absorb(start, if d <= 0 then blp else WithBit(blp, d - 1), rest[1..]);
      (r.0, r.1 + 1)
  }

  /** Start and mask of each entry. */
  function Masks(ks: seq<int>): seq<(int, u32)>
    decreases |ks|
  {
    if ks == [] then []
    else
      var r := Absorb(ks[0], 0, ks[1..]);
      [(ks[0], r.0)] + Masks(ks[1..][r.1..])
  }

  function AllEntryKeys(entries: seq<(int, u32)>): seq<int> {
    if entries == [] then [] else EntryKeys(entries[0].0, entries[0].1) + AllEntryKeys(entries[1..])
  }

  /** No bit from `o` up, and the highest entry is `o` above the start. */
  predicate TopAt(blp: nat, o: nat) {
    (o > 0 ==> Bit(blp, o - 1)) && forall j :: o <= j < WINDOW ==> !Bit(blp, j)
  }

  lemma {:induction false} MaskEnds(start: int, blp: nat, i: nat)
    requires forall j :: i <= j < WINDOW ==> !Bit(blp, j)
    ensures MaskKeys(start, blp, i) == []
    decreases WINDOW - i
  {
    if i < WINDOW {
      MaskEnds(start, blp, i + 1);
    }
  }

  lemma {:induction false} MaskGrows(start: int, blp: nat, k: nat, i: nat)
    requires k < WINDOW && i <= k && forall j :: k <= j < WINDOW ==> !Bit(blp, j)
    ensures MaskKeys(start, SetBit(blp, k), i) == MaskKeys(start, blp, i) + [start + k + 1]
    decreases WINDOW - i
  {
    hide Bit, SetBit;
    BitOfSetBit(blp, k, i);
    if i < k {
      MaskGrows(start, blp, k, i + 1);
    } else {
      MaskEnds(start, blp, k + 1);
      forall j | k < j < WINDOW ensures !Bit(SetBit(blp, k), j) {
        BitOfSetBit(blp, k, j);
      }
      MaskEnds(start, SetBit(blp, k), k + 1);
    }
  }

  lemma {:induction false} SetBitAgain(x: nat, i: nat)
    requires Bit(x, i)
    ensures SetBit(x, i) == x
    decreases i
  {
    if i > 0 {
      SetBitAgain(x / 2, i - 1);
    }
  }

  lemma TopMoves(blp: nat, o: nat, k: nat)
    requires TopAt(blp, o) && o <= k < WINDOW
    ensures TopAt(SetBit(blp, k), k + 1)
  {
    hide Bit, SetBit;
    forall j: nat ensures Bit(SetBit(blp, k), j) <==> j == k || Bit(blp, j) {
      BitOfSetBit(blp, k, j);
    }
  }

  /** One entry's window: it asks for exactly the distinct positions it took in. */
  lemma {:induction false} AbsorbIsExact(start: int, o: nat, blp: u32, rest: seq<int>)
    requires Upward(start + o, rest) && o <= WINDOW && TopAt(blp, o)
    ensures var (mask, n) := Absorb(start, blp, rest);
            && EntryKeys(start, mask) == EntryKeys(start, blp) + Fresh(start + o, rest[..n])
            && (n < |rest| ==> (if n == 0 then start + o else rest[n - 1]) < rest[n])
    decreases |rest|
  {
    hide Bit, SetBit, MaskKeys, TopAt, EntryKeys;
    if rest != [] && rest[0] - start <= WINDOW {
      var d := rest[0] - start;
      var tail := rest[1..];
      var next := if d <= 0 then blp else WithBit(blp, d - 1);
      var (mask, n) := Absorb(start, next, tail);
      assert rest[..n + 1] == [rest[0]] + tail[..n];
      if d == o {
        DuplicateAbsorbed(blp, o);
        AbsorbIsExact(start, o, blp, tail);
      } else {
        NewAbsorbed(start, o, blp, d);
        AbsorbIsExact(start, d, next, tail);
        Associate(EntryKeys(start, blp), [start + d], Fresh(start + d, tail[..n]));
      }
    }
  }

  lemma DuplicateAbsorbed(blp: nat, o: nat)
    requires TopAt(blp, o)
    ensures o > 0 ==> SetBit(blp, o - 1) == blp
  {
    if o > 0 {
      SetBitAgain(blp, o - 1);
    }
  }

  lemma NewAbsorbed(start: int, o: nat, blp: nat, d: nat)
    requires TopAt(blp, o) && o < d <= WINDOW
    ensures EntryKeys(start, SetBit(blp, d - 1)) == EntryKeys(start, blp) + [start + d]
    ensures TopAt(SetBit(blp, d - 1), d)
  {
    hide Bit, SetBit, MaskKeys;
    MaskGrows(start, blp, d - 1, 0);
    TopMoves(blp, o, d - 1);
  }

  lemma EmptyMask(start: int)
    ensures TopAt(0, 0) && EntryKeys(start, 0) == [start]
  {
    forall j: nat | j < WINDOW ensures !Bit(0, j) {
      NoBitsInZero(j);
    }
    MaskEnds(start, 0, 0);
  }

  lemma {:induction false} UpwardTail(last: int, ks: seq<int>, n: nat)
    requires Upward(last, ks) && n <= |ks|
    ensures Ascending(ks[n..])
    decreases |ks|
  {
    if n > 0 {
      UpwardTail(ks[0], ks[1..], n - 1);
      assert ks[n..] == ks[1..][n - 1..];
    } else {
      assert ks[0..] == ks;
    }
  }

  /** The entries ask, one after the other, for every distinct position once, in order. */
  lemma {:induction false} MasksAreExact(ks: seq<int>)
    requires Ascending(ks)
    ensures AllEntryKeys(Masks(ks)) == Distinct(ks)
    decreases |ks|
  {
    hide Absorb, Bit, SetBit, EntryKeys, TopAt, Fresh, AllEntryKeys, Ascending;
    if ks == [] {
      NoEntries();
    } else {
      var start, rest := ks[0], ks[1..];
      var (mask, n) := Absorb(start, 0, rest);
      FirstWindow(ks);
      var b := rest[n..];
      MasksAreExact(b);
      FirstEntry(start, mask, Masks(b));
      assert Masks(ks) == [(start, mask)] + Masks(b);
    }
  }

  lemma NoEntries()
    ensures AllEntryKeys([]) == []
  {}

  lemma FirstEntry(start: int, mask: u32, rest: seq<(int, u32)>)
    ensures AllEntryKeys([(start, mask)] + rest) == EntryKeys(start, mask) + AllEntryKeys(rest)
  {
    assert ([(start, mask)] + rest)[1..] == rest;
  }

  lemma FirstWindow(ks: seq<int>)
    requires ks != [] && Ascending(ks)
    ensures var (mask, n) := Absorb(ks[0], 0, ks[1..]);
            && Ascending(ks[1..][n..])
            && Distinct(ks) == EntryKeys(ks[0], mask) + Distinct(ks[1..][n..])
  {
    hide Absorb, Bit, SetBit, EntryKeys, TopAt, Fresh;
    var start, rest := ks[0], ks[1..];
    var (mask, n) := Absorb(start, 0, rest);
    EmptyMask(start);
    AbsorbIsExact(start, 0, 0, rest);
    assert rest[..n] + rest[n..] == rest;
    FreshOfSum(start, rest[..n], rest[n..]);
    UpwardTail(start, rest, n);
    Associate([start], Fresh(start, rest[..n]), Distinct(rest[n..]));
  }

  // ---- Range entries ----

  /** How many entries the run through `last` takes in, and its last position. */
  function Extend(start: int, last: int, rest: seq<int>): (r: (int, nat))
    requires start <= last < start + MAX_NACK_DECODE_RANGE
    ensures r.1 <= |rest| && last <= r.0 < start + MAX_NACK_DECODE_RANGE
    ensures r.1 < |rest| ==> rest[r.1] != r.0
    decreases |rest|
  {
    if rest == [] then (last, 0)
    else
      var next := rest[0];
      if next == last then
        var r := Extend(start, last, rest[1..]);
        (r.0, r.1 + 1)
      else if next != last + 1 || next - start >= MAX_NACK_DECODE_RANGE then (last, 0)
      else
        var r := Extend(start, next, rest[1..]);
        (r.0, r.1 + 1)
  }

  /** How far an entry goes beyond its start. */
  type Nalp = n: nat | n < MAX_NACK_DECODE_RANGE

  /** Start and length of each entry. */
  function Runs(ks: seq<int>): seq<(int, Nalp)>
    decreases |ks|
  {
    if ks == [] then []
    else
      var r := Extend(ks[0], ks[0], ks[1..]);
      [(ks[0], r.0 - ks[0])] + Runs(ks[1..][r.1..])
  }

  function Span(first: int, last: int): seq<int>
    decreases last - first
  {
    if first > last then [] else [first] + Span(first + 1, last)
  }

  function AllSpans(runs: seq<(int, Nalp)>): seq<int> {
    if runs == [] then [] else Span(runs[0].0, runs[0].0 + runs[0].1) + AllSpans(runs[1..])
  }

  /** One run: it spans exactly the distinct positions it took in. */
  lemma {:induction false} ExtendIsExact(start: int, last: int, rest: seq<int>)
    requires start <= last < start + MAX_NACK_DECODE_RANGE
    ensures var (end, n) := Extend(start, last, rest);
            && [last] + Fresh(last, rest[..n]) == Span(last, end)
            && end == if n == 0 then last else rest[n - 1]
    decreases |rest|
  {
    var (end, n) := Extend(start, last, rest);
    if n == 0 {
      assert Span(last, last) == [last] + Span(last + 1, last);
    } else {
      assert rest[..n] == [rest[0]] + rest[1..][..n - 1];
      ExtendIsExact(start, rest[0], rest[1..]);
    }
  }

  lemma {:induction false} RunsAreExact(ks: seq<int>)
    ensures AllSpans(Runs(ks)) == Distinct(ks)
    decreases |ks|
  {
    hide Span, Extend, Fresh;
    if ks != [] {
      var start, rest := ks[0], ks[1..];
      var (end, n) := Extend(start, start, rest);
      ExtendIsExact(start, start, rest);
      var a, b := rest[..n], rest[n..];
      assert a + b == rest;
      FreshOfSum(start, a, b);
      RunsAreExact(b);
      assert Runs(ks) == [(start, end - start)] + Runs(b);
      assert Runs(ks)[1..] == Runs(b);
    }
  }

  // ---- Entries on the wire ----

  function MaskEntries(pivot: u32, masks: seq<(int, u32)>): (r: seq<NackBitmask>)
    ensures |r| == |masks|
  {
    if masks == [] then []
    else [NackBitmask(ValueAt(pivot, masks[0].0), masks[0].1)] + MaskEntries(pivot, masks[1..])
  }

  function BitmaskEntries(missing: seq<u32>): seq<NackBitmask> {
    if missing == [] then [] else MaskEntries(missing[0], Masks(SortedKeys(missing)))
  }

  function RunEntries(pivot: u32, runs: seq<(int, Nalp)>): (r: seq<NackRange>)
    ensures |r| == |runs|
  {
    if runs == [] then [] else [NackRange(ValueAt(pivot, runs[0].0), runs[0].1)] + RunEntries(pivot, runs[1..])
  }

  lemma {:induction false} RunEntriesAreShort(pivot: u32, runs: seq<(int, Nalp)>)
    ensures forall e :: e in RunEntries(pivot, runs) ==> e.nalp < MAX_NACK_DECODE_RANGE
  {
    if runs != [] {
      RunEntriesAreShort(pivot, runs[1..]);
    }
  }

  function RangeEntries(missing: seq<u32>): seq<NackRange> {
    if missing == [] then [] else RunEntries(missing[0], Runs(SortedKeys(missing)))
  }

  /** What a decoded bitmask entry is read as. */
  function MaskMissing(start: u32, blp: u32, i: nat): seq<u32>
    decreases WINDOW - i
  {
    if i >= WINDOW then []
    else (if Bit(blp, i) then [WrapAdd32(start, 1 + i)] else []) + MaskMissing(start, blp, i + 1)
  }

  function BitmaskMissing(e: NackBitmask): seq<u32> {
    [e.start] + MaskMissing(e.start, e.blp, 0)
  }

  function CountUp(start: u32, n: nat): seq<u32>
    requires n <= 0x1_0000_0000
    decreases n
  {
    if n == 0 then [] else CountUp(start, n - 1) + [WrapAdd32(start, n - 1)]
  }

  /** What a decoded range entry is read as: at most 10001 sequences. */
  function RangeMissing(e: NackRange): seq<u32> {
    CountUp(e.start, (if e.nalp < MAX_NACK_DECODE_RANGE then e.nalp else MAX_NACK_DECODE_RANGE) + 1)
  }

  function AskedByMasks(entries: seq<NackBitmask>): seq<u32> {
    if entries == [] then [] else BitmaskMissing(entries[0]) + AskedByMasks(entries[1..])
  }

  function AskedByRanges(entries: seq<NackRange>): seq<u32> {
    if entries == [] then [] else RangeMissing(entries[0]) + AskedByRanges(entries[1..])
  }

  lemma Shifted(pivot: u32, k: int, i: nat)
    requires i < 0x1_0000_0000
    ensures WrapAdd32(ValueAt(pivot, k), i) == ValueAt(pivot, k + i)
  {}

  lemma {:induction false} MaskMissingIs(pivot: u32, start: int, blp: u32, i: nat)
    ensures MaskMissing(ValueAt(pivot, start), blp, i) == Values(pivot, MaskKeys(start, blp, i))
    decreases WINDOW - i
  {
    hide ValueAt, WrapAdd32, Bit;
    if i < WINDOW {
      MaskMissingIs(pivot, start, blp, i + 1);
      Shifted(pivot, start, 1 + i);
      ValuesOfSum(pivot, if Bit(blp, i) then [start + i + 1] else [], MaskKeys(start, blp, i + 1));
    }
  }

  lemma {:induction false} MasksAsk(pivot: u32, masks: seq<(int, u32)>)
    ensures AskedByMasks(MaskEntries(pivot, masks)) == Values(pivot, AllEntryKeys(masks))
  {
    hide ValueAt, Bit, MaskKeys, MaskMissing;
    if masks != [] {
      var (start, blp) := masks[0];
      MasksAsk(pivot, masks[1..]);
      MaskMissingIs(pivot, start, blp, 0);
      ValuesOfSum(pivot, [start], MaskKeys(start, blp, 0));
      ValuesOfSum(pivot, EntryKeys(start, blp), AllEntryKeys(masks[1..]));
    }
  }

  lemma {:induction false} SpanGrows(first: int, last: int)
    requires first <= last
    ensures Span(first, last) == Span(first, last - 1) + [last]
    decreases last - first
  {
    if first < last {
      SpanGrows(first + 1, last);
    }
  }

  lemma {:induction false} CountUpIs(pivot: u32, first: int, n: nat)
    requires n <= 0x1_0000_0000
    ensures CountUp(ValueAt(pivot, first), n) == Values(pivot, Span(first, first + n - 1))
  {
    hide ValueAt, WrapAdd32, Span, Values;
    if n > 0 {
      CountUpIs(pivot, first, n - 1);
      SpanGrows(first, first + n - 1);
      Shifted(pivot, first, n - 1);
      OneValue(pivot, first + n - 1);
      ValuesOfSum(pivot, Span(first, first + n - 2), [first + n - 1]);
    } else {
      NoSpan(pivot, first);
    }
  }

  lemma OneValue(pivot: u32, k: int)
    ensures Values(pivot, [k]) == [ValueAt(pivot, k)]
  {}

  lemma NoSpan(pivot: u32, first: int)
    ensures Values(pivot, Span(first, first - 1)) == []
  {}

  lemma {:induction false} RunsAsk(pivot: u32, runs: seq<(int, Nalp)>)
    ensures AskedByRanges(RunEntries(pivot, runs)) == Values(pivot, AllSpans(runs))
  {
    hide ValueAt, CountUp, Span;
    if runs != [] {
      var (first, nalp) := runs[0];
      RunsAsk(pivot, runs[1..]);
      CountUpIs(pivot, first, nalp + 1);
      ValuesOfSum(pivot, Span(first, first + nalp), AllSpans(runs[1..]));
    }
  }

  // ---- Exactly once ----

  /** The distinct sequences of the list, in order of signed distance from its first. */
  function Wanted(missing: seq<u32>): seq<u32> {
    if missing == [] then [] else Values(missing[0], Distinct(SortedKeys(missing)))
  }

  predicate NoRepeats(s: seq<u32>) {
    forall i, j :: 0 <= i < j < |s| ==> s[i] != s[j]
  }

  lemma WantedIsTheList(missing: seq<u32>)
    ensures NoRepeats(Wanted(missing))
    ensures forall x :: x in Wanted(missing) <==> x in missing
  {
    if missing != [] {
      var pivot, ks := missing[0], SortedKeys(missing);
      SortedKeysAre(missing);
      DistinctFacts(ks);
      var ds := Distinct(ks);
      var w := Wanted(missing);
      forall i, j | 0 <= i < j < |w| ensures w[i] != w[j] {
        assert ds[i] in ks && ds[j] in ks;
        Delta(pivot, ds[i], ds[j]);
      }
      forall x ensures x in w <==> x in Values(pivot, ks) {
        SameMembers(pivot, ds, ks, x);
      }
    }
  }

  lemma SameMembers(pivot: u32, a: seq<int>, b: seq<int>, x: u32)
    requires forall k :: k in a <==> k in b
    ensures x in Values(pivot, a) <==> x in Values(pivot, b)
  {
    hide ValueAt;
    if x in Values(pivot, a) {
      var i :| 0 <= i < |a| && Values(pivot, a)[i] == x;
      assert a[i] in b;
      var j :| 0 <= j < |b| && b[j] == a[i];
      assert Values(pivot, b)[j] == x;
    }
    if x in Values(pivot, b) {
      var i :| 0 <= i < |b| && Values(pivot, b)[i] == x;
      assert b[i] in a;
      var j :| 0 <= j < |a| && a[j] == b[i];
      assert Values(pivot, a)[j] == x;
    }
  }

  /** For every list, in any order and with repeats: the bitmask entries ask for each distinct
      sequence exactly once and for nothing else. */
  lemma BitmasksAskExactlyOnce(missing: seq<u32>)
    ensures AskedByMasks(BitmaskEntries(missing)) == Wanted(missing)
    ensures NoRepeats(Wanted(missing)) && forall x :: x in Wanted(missing) <==> x in missing
  {
    WantedIsTheList(missing);
    if missing != [] {
      var ks := SortedKeys(missing);
      SortedKeysAre(missing);
      MasksAreExact(ks);
      MasksAsk(missing[0], Masks(ks));
    }
  }

  /** So do the range entries, none of them longer than a decoder will read. */
  lemma RangesAskExactlyOnce(missing: seq<u32>)
    ensures AskedByRanges(RangeEntries(missing)) == Wanted(missing)
    ensures NoRepeats(Wanted(missing)) && forall x :: x in Wanted(missing) <==> x in missing
    ensures forall e :: e in RangeEntries(missing) ==> e.nalp < 10_000
  {
    WantedIsTheList(missing);
    if missing != [] {
      RunsAreExact(SortedKeys(missing));
      RunsAsk(missing[0], Runs(SortedKeys(missing)));
      RunEntriesAreShort(missing[0], Runs(SortedKeys(missing)));
    }
  }

  // ---- The loops ----

  lemma DeltaAt(pivot: u32, ks: seq<int>, i: nat, j: nat)
    requires Ascending(ks) && InRange(ks) && i <= j < |ks|
    ensures var s := Values(pivot, ks);
            && WrapSub32(s[j], s[i]) == ks[j] - ks[i]
            && (s[j] == s[i] <==> ks[j] == ks[i])
            && (s[j] == WrapAdd32(s[i], 1) <==> ks[j] == ks[i] + 1)
  {
    AscendingAt(ks, i, j);
    Delta(pivot, ks[i], ks[j]);
  }

  method SortSeqsWrap(missing: seq<u32>) returns (s: seq<u32>)
    requires missing != []
    ensures s == Values(missing[0], SortedKeys(missing))
  {
    s := Values(missing[0], Sort(Keys(missing[0], missing)));
  }

  /** The inner bitmask loop: the mask of the window from `i`, and where the next one starts. */
  method Window(s: seq<u32>, i: nat, ghost pivot: u32, ghost ks: seq<int>) returns (blp: u32, j: nat)
    requires s == Values(pivot, ks) && Ascending(ks) && InRange(ks) && i < |s|
    ensures i < j <= |s| && (blp, j - i - 1) == Absorb(ks[i], 0, ks[i + 1..])
  {
    hide Ascending, InRange, WrapSub32, Values, WithBit;
    var start := s[i];
    blp := 0;
    j := i + 1;
    ghost var full := Absorb(ks[i], 0, ks[i + 1..]);
    while j < |s|
      invariant i < j <= |s|
      invariant var r := Absorb(ks[i], blp, ks[j..]); full == (r.0, r.1 + (j - i - 1))
    {
      DeltaAt(pivot, ks, i, j);
      assert ks[j..][0] == ks[j] && ks[j..][1..] == ks[j + 1..];
      var delta := WrapSub32(s[j], start);
      if delta > WINDOW {
        return;
      }
      if delta != 0 {
        blp := WithBit(blp, delta - 1);
      }
      j := j + 1;
    }
    assert ks[|s|..] == [];
  }

  lemma NextMask(entries: seq<NackBitmask>, pivot: u32, ks: seq<int>, i: nat, j: nat, blp: u32)
    requires i < j <= |ks| && (blp, j - i - 1) == Absorb(ks[i], 0, ks[i + 1..])
    ensures entries + MaskEntries(pivot, Masks(ks[i..]))
         == entries + [NackBitmask(ValueAt(pivot, ks[i]), blp)] + MaskEntries(pivot, Masks(ks[j..]))
  {
    hide Absorb, ValueAt;
    assert ks[i..][1..] == ks[i + 1..] && ks[i + 1..][j - i - 1..] == ks[j..];
    var more := Masks(ks[j..]);
    assert Masks(ks[i..]) == [(ks[i], blp)] + more;
    assert ([(ks[i], blp)] + more)[1..] == more;
    Associate(entries, [NackBitmask(ValueAt(pivot, ks[i]), blp)], MaskEntries(pivot, more));
  }

  method EncodeBitmaskNack(missing: seq<u32>) returns (entries: seq<NackBitmask>)
    ensures entries == BitmaskEntries(missing)
  {
    hide Ascending, InRange, SortedKeys, Masks, MaskEntries, Absorb;
    entries := [];
    if missing == [] {
      return;
    }
    var s := SortSeqsWrap(missing);
    ghost var pivot, ks := missing[0], SortedKeys(missing);
    SortedKeysAre(missing);
    var i := 0;
    assert ks[0..] == ks;
    while i < |s|
      invariant i <= |s|
      invariant entries + MaskEntries(pivot, Masks(ks[i..])) == BitmaskEntries(missing)
    {
      var blp, j := Window(s, i, pivot, ks);
      NextMask(entries, pivot, ks, i, j, blp);
      entries := entries + [NackBitmask(s[i], blp)];
      i := j;
    }
    assert ks[i..] == [];
    NoMasks(pivot);
  }

  lemma NoMasks(pivot: u32)
    ensures MaskEntries(pivot, Masks([])) == []
  {}

  lemma RunStops(pivot: u32, ks: seq<int>, i: nat, j: nat)
    requires Ascending(ks) && InRange(ks) && i <= j && j + 1 < |ks|
    ensures var s := Values(pivot, ks);
            var next := s[j + 1];
            next != s[j] && (next != WrapAdd32(s[j], 1) || WrapSub32(next, s[i]) >= MAX_NACK_DECODE_RANGE)
            <==> ks[j + 1] != ks[j] && (ks[j + 1] != ks[j] + 1 || ks[j + 1] - ks[i] >= MAX_NACK_DECODE_RANGE)
  {
    hide Ascending, InRange, WrapSub32, WrapAdd32, ValueAt;
    DeltaAt(pivot, ks, i, j + 1);
    DeltaAt(pivot, ks, j, j + 1);
  }

  /** The inner range loop: where the run from `i` ends. */
  method RunEnd(s: seq<u32>, i: nat, ghost pivot: u32, ghost ks: seq<int>) returns (j: nat)
    requires s == Values(pivot, ks) && Ascending(ks) && InRange(ks) && i < |s|
    ensures i <= j < |s| && (ks[j], j - i) == Extend(ks[i], ks[i], ks[i + 1..])
  {
    hide Ascending, InRange, WrapSub32, WrapAdd32, Values, ValueAt, Extend;
    var start := s[i];
    j := i;
    ghost var full := Extend(ks[i], ks[i], ks[i + 1..]);
    while j + 1 < |s|
      invariant i <= j < |s| && ks[i] <= ks[j] < ks[i] + MAX_NACK_DECODE_RANGE
      invariant var r := Extend(ks[i], ks[j], ks[j + 1..]); full == (r.0, r.1 + (j - i))
    {
      RunStops(pivot, ks, i, j);
      ExtendStep(ks, i, j);
      var next := s[j + 1];
      if next != s[j] && (next != WrapAdd32(s[j], 1) || WrapSub32(next, start) >= MAX_NACK_DECODE_RANGE) {
        return;
      }
      j := j + 1;
    }
    assert ks[j + 1..] == [];
    ExtendEnds(ks[i], ks[j]);
  }

  lemma ExtendEnds(start: int, last: int)
    requires start <= last < start + MAX_NACK_DECODE_RANGE
    ensures Extend(start, last, []) == (last, 0)
  {}

  lemma ExtendStep(ks: seq<int>, i: nat, j: nat)
    requires i <= j && j + 1 < |ks| && ks[i] <= ks[j] < ks[i] + MAX_NACK_DECODE_RANGE
    ensures Extend(ks[i], ks[j], ks[j + 1..])
         == if ks[j + 1] != ks[j] && (ks[j + 1] != ks[j] + 1 || ks[j + 1] - ks[i] >= MAX_NACK_DECODE_RANGE) then (ks[j], 0)
            else var r := Extend(ks[i], ks[j + 1], ks[j + 2..]); (r.0, r.1 + 1)
  {
    assert ks[j + 1..][0] == ks[j + 1] && ks[j + 1..][1..] == ks[j + 2..];
  }

  lemma NextRun(entries: seq<NackRange>, pivot: u32, ks: seq<int>, i: nat, j: nat)
    requires i <= j < |ks| && (ks[j], j - i) == Extend(ks[i], ks[i], ks[i + 1..])
    ensures ks[i] <= ks[j] < ks[i] + MAX_NACK_DECODE_RANGE
    ensures entries + RunEntries(pivot, Runs(ks[i..]))
         == entries + [NackRange(ValueAt(pivot, ks[i]), ks[j] - ks[i])] + RunEntries(pivot, Runs(ks[j + 1..]))
  {
    hide Extend, ValueAt;
    assert ks[i..][1..] == ks[i + 1..] && ks[i + 1..][j - i..] == ks[j + 1..];
    var more := Runs(ks[j + 1..]);
    assert Runs(ks[i..]) == [(ks[i], ks[j] - ks[i])] + more;
    assert ([(ks[i], ks[j] - ks[i])] + more)[1..] == more;
    Associate(entries, [NackRange(ValueAt(pivot, ks[i]), ks[j] - ks[i])], RunEntries(pivot, more));
  }

  method EncodeRangeNack(missing: seq<u32>) returns (entries: seq<NackRange>)
    ensures entries == RangeEntries(missing)
  {
    hide Ascending, InRange, SortedKeys, Runs, RunEntries, Extend, WrapSub32;
    entries := [];
    if missing == [] {
      return;
    }
    var s := SortSeqsWrap(missing);
    ghost var pivot, ks := missing[0], SortedKeys(missing);
    SortedKeysAre(missing);
    var i := 0;
    assert ks[0..] == ks;
    while i < |s|
      invariant i <= |s|
      invariant entries + RunEntries(pivot, Runs(ks[i..])) == RangeEntries(missing)
    {
      var j := RunEnd(s, i, pivot, ks);
      DeltaAt(pivot, ks, i, j);
      NextRun(entries, pivot, ks, i, j);
      entries := entries + [NackRange(s[i], WrapSub32(s[j], s[i]))];
      i := j + 1;
    }
    assert ks[i..] == [];
    NoRuns(pivot);
  }

  lemma NoRuns(pivot: u32)
    ensures RunEntries(pivot, Runs([])) == []
  {}
}
