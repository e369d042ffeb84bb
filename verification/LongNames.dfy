/**
 Long file names in FAT directories (fs/fatfs.c): how a name is cut into entries of 13 characters, how a query
 is compared with one entry, and how the countdown of fat_dir_lookup recognises a whole name. A query is the
 memory it lives in: nothing is known about the bytes after its terminator, and the comparison may read them.
 */
module LongNames {
  import opened Common

  /** A signed char, and the 16-bit unit that stores it; 0xffff in a `short` is -1, like the char 0xff. */
  newtype Char = c: int | -128 <= c < 128
  type Unit = u: int | -0x8000 <= u < 0x8000
  /** The units of one entry. */
  type Piece = s: seq<Unit> | |s| == 13 witness seq(13, _ => 0)
  type Memory = int -> Char

    /** A name as the characters before its terminator. */
  predicate IsName(a: seq<Char>) {
    forall i :: 0 <= i < |a| ==> a[i] != 0
  }

  /** The string `b` and its terminator are at the start of `m`. */
  ghost predicate Holds(m: Memory, b: seq<Char>) {
    IsName(b) && m(|b|) == 0 && forall i :: 0 <= i < |b| ==> m(i) == b[i]
  }

  function Terminated(a: seq<Char>): (s: seq<Char>) {
    a + [0]
  }

  /** needEntry */
  function Needed(a: seq<Char>): (n: nat) {
    |a| / 13 + 1
  }

  /** The i-th unit of the ord-th entry of `a`: a character, the terminator, or padding. */
  function UnitOf(a: seq<Char>, ord: nat, i: nat): (u: Unit)
    requires ord > 0
  {
    var p := (ord - 1) * 13 + i;
    if p < |a| then a[p] as int else if p == |a| then 0 else -1
  }

  function Units(a: seq<Char>, ord: nat): (s: Piece)
    requires ord > 0
  {
    seq(13, i requires 0 <= i => UnitOf(a, ord, i))
  }

  // ---- the order byte

  /** The value of a signed char that is assigned `x`. */
  function ToChar(x: int): (c: int) {
    (x + 128) % 256 - 128
  }

  /** LDIR_Ord & LAST_LONG_ENTRY */
  predicate HasLastMark(ord: int) {
    ord / 64 % 2 == 1
  }

  /** The order with the last-entry mark taken off. */
  function OrderOf(ord: int): (n: int) {
    if HasLastMark(ord) then ord - 64 else ord
  }

  /** LAST_LONG_ENTRY | n, stored in a char. */
  function LastOrder(n: nat): (ord: int) {
    ToChar(if HasLastMark(n) then n else n + 64)
  }

  /** The order byte holds the number of entries exactly for names of at most 818 characters. */
  lemma OrderRoundTrip(n: nat)
    ensures HasLastMark(LastOrder(n))
    ensures OrderOf(LastOrder(n)) == n <==> n < 64
  {
    var m := if HasLastMark(n) then n else n + 64;
    var j, b := n / 128, n % 128;
    var t := if b < 64 then b else b - 64;
    if b < 64 {
      EvenIsUnmarked(n, j, t);
    } else {
      OddIsMarked(n, j, t);
    }
    assert m == 64 * (2 * j + 1) + t;
    var k := (m + 128) / 256;
    assert LastOrder(n) == m - 256 * k;
    OddIsMarked(LastOrder(n), j - 2 * k, t);
  }

  lemma EvenIsUnmarked(x: int, j: int, t: nat)
    requires x == 128 * j + t && t < 64
    ensures !HasLastMark(x)
  {
    assert x / 64 == 2 * j;
  }

  lemma OddIsMarked(x: int, j: int, t: nat)
    requires x == 64 * (2 * j + 1) + t && t < 64
    ensures HasLastMark(x)
  {
    assert x / 64 == 2 * j + 1;
  }

  // ---- comparing a query with one entry

  /** cmpLongName from the i-th unit on, for a query whose piece starts at `start`. */
  predicate SameFrom(u: Piece, m: Memory, start: int, i: nat)
    requires i <= 13
    decreases 13 - i
  {
    i == 13 || (m(start + i) == 0 && u[i] == 0) || (m(start + i) as int == u[i] && SameFrom(u, m, start, i + 1))
  }

  predicate Same(u: Piece, ord: int, m: Memory) {
    SameFrom(u, m, (OrderOf(ord) - 1) * 13, 0)
  }

  /** The characters of `a` that the ord-th entry holds, with the terminator if it is there, are those in `m`. */
  ghost predicate Agrees(a: seq<Char>, ord: nat, m: Memory)
  {
    forall p :: 13 * (ord - 1) <= p < 13 * ord && 0 <= p <= |a| ==> m(p) == Terminated(a)[p]
  }

  lemma {:induction false} SameFromMeansAgrees(a: seq<Char>, ord: nat, m: Memory, i: nat)
    requires IsName(a) && ord > 0 && i <= 13 && 13 * (ord - 1) + i <= |a|
    ensures SameFrom(Units(a, ord), m, 13 * (ord - 1), i)
            <==> forall p :: 13 * (ord - 1) + i <= p < 13 * ord && p <= |a| ==> m(p) == Terminated(a)[p]
    decreases 13 - i
  {
    var start := 13 * (ord - 1);
    if i < 13 && start + i < |a| {
      SameFromMeansAgrees(a, ord, m, i + 1);
    }
  }

  /** One entry matches iff its piece of the name agrees: padding is never compared with anything. */
  lemma SameIffAgrees(a: seq<Char>, ord: nat, m: Memory)
    requires IsName(a) && 0 < ord <= Needed(a)
    ensures SameFrom(Units(a, ord), m, (ord - 1) * 13, 0) <==> Agrees(a, ord, m)
  {
    SameFromMeansAgrees(a, ord, m, 0);
  }

  /** A stored name matches in all its entries iff it is the query, whatever follows the query in memory. */
  lemma AllAgreeIffEqual(a: seq<Char>, b: seq<Char>, m: Memory)
    requires IsName(a) && Holds(m, b)
    ensures (forall ord: nat :: 0 < ord <= Needed(a) ==> Agrees(a, ord, m)) <==> a == b
  {
    if forall ord: nat :: 0 < ord <= Needed(a) ==> Agrees(a, ord, m) {
      forall p | 0 <= p <= |a| ensures m(p) == Terminated(a)[p] {
        assert Agrees(a, p / 13 + 1, m);
      }
      assert m(|a|) == 0 && m(|b|) == 0;
    }
  }

  /** The loop of cmpLongName. */
  method CompareUnits(tmp: Piece, ord: int, m: Memory) returns (r: bool)
    ensures r == Same(tmp, ord, m)
  {
    var start := (OrderOf(ord) - 1) * 13;
    for i: nat := 0 to 13
      invariant SameFrom(tmp, m, start, i) == SameFrom(tmp, m, start, 0)
    {
      if m(start + i) == 0 && tmp[i] == 0 {
        return true;
      }
      if m(start + i) as int != tmp[i] {
        return false;
      }
    }
    r := true;
  }

  // ---- the entries in place

  /** The name fields of a long entry. */
  class LongEntry {
    const name1: array<Unit>
    const name2: array<Unit>
    const name3: array<Unit>

    ghost predicate Shaped() {
      && name1.Length == 5 && name2.Length == 6 && name3.Length == 2
      && name1 != name2 && name2 != name3 && name1 != name3
    }

    constructor ()
      ensures Shaped() && fresh(name1) && fresh(name2) && fresh(name3)
    {
      name1, name2, name3 := new Unit[5], new Unit[6], new Unit[2];
    }

    function Value(): (s: Piece)
      requires Shaped()
      reads name1, name2, name3
    {
      name1[..] + name2[..] + name3[..]
    }

    method Put(i: nat, u: Unit)
      requires Shaped() && i < 13
      modifies name1, name2, name3
      ensures Value() == old(Value())[i := u]
    {
      if i < 5 {
        name1[i] := u;
      } else if i < 11 {
        name2[i - 5] := u;
      } else {
        name3[i - 11] := u;
      }
    }

    /** fillFileLN: writes the ord-th piece of the name; no character after the terminator is read. */
    method FillName(name: seq<Char>, ord: nat)
      requires Shaped() && IsName(name) && 0 < ord <= Needed(name)
      modifies name1, name2, name3
      ensures Value() == Units(name, ord)
      ensures forall i :: 0 <= i < 13 ==>
                var p := 13 * (ord - 1) + i;
                Value()[i] == if p < |name| then name[p] as int else if p == |name| then 0 else -1
    {
      var p, start := Terminated(name), 13 * (ord - 1);
      var i: nat := 0;
      while p[start + i] != 0
        invariant i <= 13 && start + i <= |name|
        invariant forall k :: 0 <= k < i ==> Value()[k] == UnitOf(name, ord, k)
        decreases |p| - i
      {
        if i >= 13 {
          break;
        }
        Put(i, p[start + i] as int);
        i := i + 1;
      }
      if i < 13 {
        Put(i, 0);
      }
      i := i + 1;
      while i < 13
        invariant i <= 14
        invariant forall k :: 0 <= k < i && k < 13 ==> Value()[k] == UnitOf(name, ord, k)
        decreases 13 - i
      {
        Put(i, -1);
        i := i + 1;
      }
    }

    /** getSubName and cmpLongName */
    method Compare(ord: int, m: Memory) returns (r: bool)
      requires Shaped()
      ensures r == Same(Value(), ord, m)
    {
      r := CompareUnits(name1[..] + name2[..] + name3[..], ord, m);
    }
  }

  // ---- short names

  function Upper(c: Char): (u: Char) {
    if 97 <= c <= 122 then c - 32 else c
  }

  /** The number of characters from the i-th on before a dot, the terminator or the eighth character. */
  function StemEnd(m: Memory, i: nat): (n: nat)
    requires i <= 8
    ensures i <= n <= 8
    decreases 8 - i
  {
    if i == 8 || m(i) == 46 || m(i) == 0 then i else StemEnd(m, i + 1)
  }

  /** The end of the characters from the i-th on before the terminator, at most `stop`. */
  function TextEnd(m: Memory, i: nat, stop: nat): (n: nat)
    requires i <= stop
    ensures i <= n <= stop
    decreases stop - i
  {
    if i == stop || m(i) == 0 then i else TextEnd(m, i + 1, stop)
  }

  /** The name field of a short entry. */
  type Field = s: seq<Char> | |s| == 11 witness seq(11, _ => 32)

  /** The first eight characters that cmpFileName compares with an entry. */
  function ShortStem(m: Memory): (s: seq<Char>)
    ensures |s| == 8
  {
    seq(8, i => if i < StemEnd(m, 0) then Upper(m(i)) else 32)
  }

  /** The last three. */
  function ShortExtension(m: Memory): (s: seq<Char>)
    ensures |s| == 3
  {
    var at := StemEnd(m, 0) + 1;
    if m(at - 1) == 46 then seq(3, j => if at + j < TextEnd(m, at, at + 3) then m(at + j) else 32) else seq(3, _ => 32)
  }

  function ShortName(m: Memory): (s: Field) {
    ShortStem(m) + ShortExtension(m)
  }

  /** The place of the first dot from the i-th character on, or the end. */
  function FirstDot(b: seq<Char>, i: nat): (n: nat)
    requires i <= |b|
    ensures i <= n <= |b| && (forall k :: i <= k < n ==> b[k] != 46) && (n < |b| ==> b[n] == 46)
    decreases |b| - i
  {
    if i == |b| || b[i] == 46 then i else FirstDot(b, i + 1)
  }

  /** The number of characters before the first dot. */
  function StemLength(b: seq<Char>): (n: nat)
    ensures n <= |b| && (forall i :: 0 <= i < n ==> b[i] != 46) && (n < |b| ==> b[n] == 46)
  {
    FirstDot(b, 0)
  }

  lemma {:induction false} StemEndIs(m: Memory, b: seq<Char>, i: nat)
    requires Holds(m, b) && i <= 8 && i <= StemLength(b)
    ensures StemEnd(m, i) == if StemLength(b) <= 8 then StemLength(b) else 8
    decreases 8 - i
  {
    if i < 8 && i < StemLength(b) {
      StemEndIs(m, b, i + 1);
    }
  }

  lemma {:induction false} TextEndIs(m: Memory, b: seq<Char>, i: nat, stop: nat)
    requires Holds(m, b) && i <= |b| && i <= stop
    ensures TextEnd(m, i, stop) == if |b| <= stop then |b| else stop
    decreases stop - i
  {
    if i < stop && i < |b| {
      TextEndIs(m, b, i + 1, stop);
    }
  }

  /** The j-th character, or a blank behind the end. */
  function OrBlank(b: seq<Char>, j: nat): (c: Char) {
    if j < |b| then b[j] else 32
  }

  lemma ShortStemIs(m: Memory, b: seq<Char>, i: nat)
    requires Holds(m, b) && i < 8
    ensures ShortStem(m)[i] == if i < StemLength(b) then (if 97 <= b[i] <= 122 then b[i] - 32 else b[i]) else 32
  {
    StemEndIs(m, b, 0);
  }

  lemma ShortExtensionIs(m: Memory, b: seq<Char>, i: nat)
    requires Holds(m, b) && i < 3
    ensures ShortExtension(m)[i]
         == if StemLength(b) <= 8 then OrBlank(b, StemLength(b) + 1 + i) else 32
  {
    var n := StemLength(b);
    StemEndIs(m, b, 0);
    if n > 8 {
      assert m(8) == b[8] != 46;
    } else if n == |b| {
      assert m(n) == 0;
    } else {
      assert m(n) == b[n] == 46;
      TextEndIs(m, b, n + 1, n + 4);
    }
  }

  lemma ShortNameParts(m: Memory, i: nat)
    requires i < 11
    ensures ShortName(m)[i] == if i < 8 then ShortStem(m)[i] else ShortExtension(m)[i - 8]
  {
  }

  /**
   The short name of every query: up to eight characters before the first dot, with small letters made capital and
   blanks behind, and the first three after that dot as they are, with blanks behind. A query with more than eight
   characters before the first dot has no extension.
   */
  lemma ShortNameIs(m: Memory, b: seq<Char>, i: nat)
    requires Holds(m, b) && i < 11
    ensures i < 8 ==> ShortName(m)[i] == if i < StemLength(b) then (if 97 <= b[i] <= 122 then b[i] - 32 else b[i]) else 32
    ensures i >= 8 ==> ShortName(m)[i] == if StemLength(b) <= 8 then OrBlank(b, StemLength(b) + 1 + (i - 8)) else 32
  {
    ShortNameParts(m, i);
    if i < 8 {
      ShortStemIs(m, b, i);
    } else {
      ShortExtensionIs(m, b, i - 8);
    }
  }

  /** The same letter, small or capital. */
  predicate SameLetter(c: Char, d: Char) {
    c == d || (97 <= c <= 122 && d == c - 32) || (97 <= d <= 122 && c == d - 32)
  }

  /** The two names differ only in the case of letters before the first dot. */
  ghost predicate SameButCase(b: seq<Char>, b': seq<Char>) {
    && |b| == |b'| && StemLength(b) == StemLength(b')
    && forall i :: 0 <= i < |b| ==> if i < StemLength(b) then SameLetter(b[i], b'[i]) else b[i] == b'[i]
  }

  lemma CaseDoesNotMatterInStem(m: Memory, b: seq<Char>, m': Memory, b': seq<Char>, i: nat)
    requires Holds(m, b) && Holds(m', b') && SameButCase(b, b') && i < 8
    ensures ShortStem(m)[i] == ShortStem(m')[i]
  {
    ShortStemIs(m, b, i);
    ShortStemIs(m', b', i);
    assert i < StemLength(b) ==> SameLetter(b[i], b'[i]);
  }

  lemma SameExtension(m: Memory, b: seq<Char>, m': Memory, b': seq<Char>, i: nat)
    requires Holds(m, b) && Holds(m', b') && SameButCase(b, b') && i < 3
    ensures ShortExtension(m)[i] == ShortExtension(m')[i]
  {
    ShortExtensionIs(m, b, i);
    ShortExtensionIs(m', b', i);
    SameBehindDot(b, b', StemLength(b) + 1 + i);
  }

  lemma SameBehindDot(b: seq<Char>, b': seq<Char>, j: nat)
    requires SameButCase(b, b') && StemLength(b) <= j
    ensures OrBlank(b, j) == OrBlank(b', j)
  {
  }

  /** Two queries that differ only in the case of letters before the first dot have the same short name. */
  lemma CaseOfStemDoesNotMatter(m: Memory, b: seq<Char>, m': Memory, b': seq<Char>)
    requires Holds(m, b) && Holds(m', b') && SameButCase(b, b')
    ensures ShortName(m) == ShortName(m')
  {
    forall i | 0 <= i < 8 ensures ShortStem(m)[i] == ShortStem(m')[i] {
      CaseDoesNotMatterInStem(m, b, m', b', i);
    }
    assert ShortStem(m) == ShortStem(m');
    forall i | 0 <= i < 3 ensures ShortExtension(m)[i] == ShortExtension(m')[i] {
      SameExtension(m, b, m', b', i);
    }
    assert ShortExtension(m) == ShortExtension(m');
  }

  /** The short name depends on the string alone. */
  lemma ShortNameOf(m: Memory, m': Memory, b: seq<Char>)
    requires Holds(m, b) && Holds(m', b)
    ensures ShortName(m) == ShortName(m')
  {
    CaseOfStemDoesNotMatter(m, b, m', b);
  }

  /** The first loop of cmpFileName: fills the stem. */
  method FillStem(c1: array<Char>, m: Memory) returns (n: nat)
    requires c1.Length == 11 && forall i :: 0 <= i < 11 ==> c1[i] == 32
    modifies c1
    ensures n == StemEnd(m, 0)
    ensures forall i :: 0 <= i < 11 ==> c1[i] == if i < n then Upper(m(i)) else 32
  {
    n := 0;
    while n < 8 && m(n) != 46 && m(n) != 0
      invariant n <= 8 && StemEnd(m, 0) == StemEnd(m, n)
      invariant forall i :: 0 <= i < 11 ==> c1[i] == if i < n then Upper(m(i)) else 32
    {
      c1[n] := if 97 <= m(n) <= 122 then m(n) - 97 + 65 else m(n);
      n := n + 1;
    }
  }

  /** The second loop of cmpFileName: fills the extension from position `at` of the query. */
  method FillExtension(c1: array<Char>, m: Memory, at: nat)
    requires c1.Length == 11 && forall i :: 8 <= i < 11 ==> c1[i] == 32
    modifies c1
    ensures forall i :: 0 <= i < 8 ==> c1[i] == old(c1[i])
    ensures forall j :: 8 <= j < 11 ==> c1[j] == if at + (j - 8) < TextEnd(m, at, at + 3) then m(at + (j - 8)) else 32
  {
    var i, j: nat := at, 8;
    while j < 11 && m(i) != 0
      invariant 8 <= j <= 11 && i == at + (j - 8) && TextEnd(m, at, at + 3) == TextEnd(m, i, at + 3)
      invariant forall k :: 0 <= k < 8 ==> c1[k] == old(c1[k])
      invariant forall k :: 8 <= k < 11 ==> c1[k] == if k < j then m(at + (k - 8)) else 32
    {
      c1[j] := m(i);
      i, j := i + 1, j + 1;
    }
  }

  /** Both loops. */
  method BuildName(c1: array<Char>, m: Memory)
    requires c1.Length == 11 && forall i :: 0 <= i < 11 ==> c1[i] == 32
    modifies c1
    ensures c1[..] == ShortName(m)
  {
    var n := FillStem(c1, m);
    if m(n) == 46 {
      FillExtension(c1, m, n + 1);
    }
    assert c1[..8] == ShortStem(m) && c1[8..] == ShortExtension(m);
    assert c1[..] == c1[..8] + c1[8..];
  }

  /** cmpFileName: whether the name field of a short entry is the short name of the query. */
  method CompareFileName(field: Field, m: Memory) returns (same: bool)
    ensures same <==> field == ShortName(m)
  {
    var c1 := new Char[11](_ => 32);
    BuildName(c1, m);
    for i := 0 to 11
      invariant c1[..] == ShortName(m) && forall k :: 0 <= k < i ==> field[k] == c1[k]
    {
      if field[i] != c1[i] {
        return false;
      }
    }
    same := true;
  }

  // ---- looking a name up

  /** A directory entry, as the attribute bits in ATTR_LONG_NAME make the lookup take it. */
  datatype Slot = Long(ord: int, units: Piece) | Short(name: Field)

  /** The value of a 32-bit unsigned integer that is assigned `x`. */
  function ToUnsigned(x: int): (n: nat) {
    x % 0x1_0000_0000
  }

  /** A decrement in 32 bits. */
  function Dec(n: nat): (r: nat) {
    if n == 0 then 0xffff_ffff else n - 1
  }

  /** The countdown after a long entry. */
  function Counted(check: nat, slot: Slot, m: Memory): (n: nat)
    requires slot.Long?
  {
    var c := if HasLastMark(slot.ord) then ToUnsigned(OrderOf(slot.ord)) else check;
    if Same(slot.units, slot.ord, m) then Dec(c) else c
  }

  /** The countdown before the i-th entry of a cluster. */
  function CheckAt(slots: seq<Slot>, i: nat, m: Memory): (n: nat)
    requires i <= |slots|
  {
    if i == 0 then 1
    else if slots[i - 1].Long? then Counted(CheckAt(slots, i - 1, m), slots[i - 1], m)
    else CheckAt(slots, i - 1, m)
  }

  /** A query in memory, with the short name that cmpFileName makes of it. */
  datatype Query = Query(m: Memory, short: Field)

  ghost predicate IsQuery(q: Query) {
    q.short == ShortName(q.m)
  }

  /** fat_dir_lookup takes the i-th entry of a cluster, if it gets there. */
  predicate StopsAt(slots: seq<Slot>, i: nat, q: Query)
    requires i < |slots|
  {
    slots[i].Short? && (slots[i].name == q.short || CheckAt(slots, i, q.m) == 0)
  }

  ghost predicate NoStopBefore(slots: seq<Slot>, n: nat, q: Query)
    requires n <= |slots|
  {
    forall i :: 0 <= i < n ==> !StopsAt(slots, i, q)
  }

  /** `r` is the first entry at which the lookup stops, if there is one. */
  ghost predicate IsFirstStop(slots: seq<Slot>, r: Option<nat>, q: Query) {
    if r.None? then NoStopBefore(slots, |slots|, q)
    else r.value < |slots| && StopsAt(slots, r.value, q) && NoStopBefore(slots, r.value, q)
  }

  lemma FirstStopIsUnique(slots: seq<Slot>, r: Option<nat>, r': Option<nat>, q: Query)
    requires IsFirstStop(slots, r, q) && IsFirstStop(slots, r', q)
    ensures r == r'
  {
  }

  /** The inner loop of fat_dir_lookup. */
  method LookupInCluster(slots: seq<Slot>, m: Memory, ghost q: Query) returns (r: Option<nat>)
    requires q.m == m && IsQuery(q)
    ensures IsFirstStop(slots, r, q)
  {
    var check := 1;
    for i: nat := 0 to |slots|
      invariant check == CheckAt(slots, i, q.m) && NoStopBefore(slots, i, q)
    {
      var cur := slots[i];
      if cur.Long? {
        if HasLastMark(cur.ord) {
          check := ToUnsigned(OrderOf(cur.ord));
        }
        var same := CompareUnits(cur.units, cur.ord, m);
        check := if same then Dec(check) else check;
      } else {
        var same := CompareFileName(cur.name, m);
        if same || check == 0 {
          return Some(i);
        }
      }
    }
    r := None;
  }

  // ---- directories of stored files

  /** A file in a directory: a short entry that may be preceded by the entries of a long name. */
  datatype Item = Plain(short: Field) | Named(long: seq<Char>, short: Field)

  predicate Storable(it: Item) {
    it.Named? ==> IsName(it.long) && Needed(it.long) < 64
  }

  /** The number of long entries. */
  function Longs(it: Item): (n: nat) {
    if it.Named? then Needed(it.long) else 0
  }

  /** The j-th entry that fat_alloc_LongNameFile writes: the last piece of the name comes first, marked. */
  function SlotOf(it: Item, j: nat): (s: Slot)
    requires j <= Longs(it)
  {
    var n := Longs(it);
    if j == n then Short(it.short)
    else Long(if j == 0 then LastOrder(n) else ToChar(n - j), Units(it.long, n - j))
  }

  function Slots(it: Item): (s: seq<Slot>) {
    seq(Longs(it) + 1, j requires 0 <= j <= Longs(it) => SlotOf(it, j))
  }

  function Laid(items: seq<Item>): (s: seq<Slot>) {
    if items == [] then [] else Laid(items[..|items| - 1]) + Slots(items[|items| - 1])
  }

  /** The query names the file. */
  predicate Names(it: Item, b: seq<Char>, q: Query) {
    it.short == q.short || (it.Named? && it.long == b)
  }

  /** The entries of `it` are in place from `off` on. */
  ghost predicate StoredAt(slots: seq<Slot>, off: nat, it: Item) {
    off + Longs(it) < |slots| && forall j :: 0 <= j <= Longs(it) ==> slots[off + j] == SlotOf(it, j)
  }

  /** How many of the pieces 1, ..., k agree with the query. */
  ghost function Agreeing(a: seq<Char>, k: nat, m: Memory): (n: nat)
    ensures n <= k
  {
    if k == 0 then 0 else Agreeing(a, k - 1, m) + if Agrees(a, k, m) then 1 else 0
  }

  lemma {:induction false} AllAgreeing(a: seq<Char>, k: nat, m: Memory)
    ensures Agreeing(a, k, m) == k <==> forall ord: nat :: 0 < ord <= k ==> Agrees(a, ord, m)
  {
    if k > 0 {
      AllAgreeing(a, k - 1, m);
    }
  }

  /** How many of the `j` pieces n, n - 1, ... agree with the query. */
  ghost function AgreeingDown(a: seq<Char>, n: nat, j: nat, m: Memory): (k: nat)
    requires j <= n
    ensures k <= j
  {
    if j == 0 then 0 else AgreeingDown(a, n, j - 1, m) + if Agrees(a, n - (j - 1), m) then 1 else 0
  }

  lemma {:induction false} AgreeingDownSplits(a: seq<Char>, n: nat, j: nat, m: Memory)
    requires j <= n
    ensures AgreeingDown(a, n, j, m) + Agreeing(a, n - j, m) == Agreeing(a, n, m)
  {
    if j > 0 {
      AgreeingDownSplits(a, n, j - 1, m);
    }
  }

  lemma PlainOrder(k: nat)
    requires k < 64
    ensures ToChar(k) == k && !HasLastMark(k) && OrderOf(k) == k
  {
  }

  lemma CountedPiece(a: seq<Char>, k: nat, check: nat, m: Memory)
    requires IsName(a) && 0 < k <= Needed(a) && k < 64 && 0 < check < 64
    ensures Counted(check, Long(ToChar(k), Units(a, k)), m) == check - if Agrees(a, k, m) then 1 else 0
  {
    PlainOrder(k);
    SameIffAgrees(a, k, m);
    assert Same(Units(a, k), k, m) <==> Agrees(a, k, m);
  }

  lemma CountedLast(a: seq<Char>, check: nat, m: Memory)
    requires IsName(a) && Needed(a) < 64
    ensures Counted(check, Long(LastOrder(Needed(a)), Units(a, Needed(a))), m)
         == Needed(a) - if Agrees(a, Needed(a), m) then 1 else 0
  {
    OrderRoundTrip(Needed(a));
    SameIffAgrees(a, Needed(a), m);
  }

  lemma CheckFirst(slots: seq<Slot>, off: nat, it: Item, m: Memory)
    requires Storable(it) && StoredAt(slots, off, it) && it.Named?
    ensures CheckAt(slots, off + 1, m) == Longs(it) - if Agrees(it.long, Longs(it), m) then 1 else 0
  {
    assert slots[off + 0] == SlotOf(it, 0);
    CountedLast(it.long, CheckAt(slots, off, m), m);
  }

  lemma CheckNext(slots: seq<Slot>, off: nat, it: Item, j: nat, m: Memory)
    requires Storable(it) && StoredAt(slots, off, it) && 0 < j < Longs(it) && 0 < CheckAt(slots, off + j, m) < 64
    ensures CheckAt(slots, off + j + 1, m) == CheckAt(slots, off + j, m) - if Agrees(it.long, Longs(it) - j, m) then 1 else 0
  {
    assert slots[off + j] == SlotOf(it, j);
    CountedPiece(it.long, Longs(it) - j, CheckAt(slots, off + j, m), m);
  }

  /** The countdown over a long name, from whatever it was before, misses one for each piece that agrees. */
  lemma {:induction false} CheckInName(slots: seq<Slot>, off: nat, it: Item, j: nat, m: Memory)
    requires Storable(it) && StoredAt(slots, off, it) && 0 < j <= Longs(it)
    ensures CheckAt(slots, off + j, m) == Longs(it) - AgreeingDown(it.long, Longs(it), j, m)
  {
    if j == 1 {
      CheckFirst(slots, off, it, m);
      assert AgreeingDown(it.long, Longs(it), 0, m) == 0;
    } else {
      CheckInName(slots, off, it, j - 1, m);
      CheckNext(slots, off, it, j - 1, m);
    }
  }

  /** At the short entry of a file with a long name the countdown is zero iff the name is the query. */
  lemma CheckAtShort(slots: seq<Slot>, off: nat, it: Item, b: seq<Char>, m: Memory)
    requires Storable(it) && StoredAt(slots, off, it) && it.Named? && Holds(m, b)
    ensures CheckAt(slots, off + Longs(it), m) == 0 <==> it.long == b
  {
    CheckInName(slots, off, it, Longs(it), m);
    AgreeingDownSplits(it.long, Longs(it), Longs(it), m);
    AllAgreeing(it.long, Longs(it), m);
    AllAgreeIffEqual(it.long, b, m);
  }

  /** The lookup stops within the entries of a file iff the query names it, and then at its short entry. */
  lemma FileIsTakenIffNamed(slots: seq<Slot>, off: nat, it: Item, b: seq<Char>, q: Query)
    requires Storable(it) && StoredAt(slots, off, it) && Holds(q.m, b) && CheckAt(slots, off, q.m) > 0
    ensures StopsAt(slots, off + Longs(it), q) <==> Names(it, b, q)
    ensures forall i :: off <= i < off + Longs(it) ==> !StopsAt(slots, i, q)
    ensures !Names(it, b, q) ==> CheckAt(slots, off + Longs(it) + 1, q.m) > 0
  {
    if it.Named? {
      CheckAtShort(slots, off, it, b, q.m);
    }
    assert slots[off + Longs(it)] == SlotOf(it, Longs(it));
    forall i | off <= i < off + Longs(it) ensures !StopsAt(slots, i, q) {
      assert slots[off + (i - off)] == SlotOf(it, i - off);
    }
  }

  lemma PassedOver(slots: seq<Slot>, off: nat, it: Item, b: seq<Char>, q: Query)
    requires Storable(it) && StoredAt(slots, off, it) && Holds(q.m, b) && CheckAt(slots, off, q.m) > 0
    requires NoStopBefore(slots, off, q) && !Names(it, b, q)
    ensures NoStopBefore(slots, off + Longs(it) + 1, q) && CheckAt(slots, off + Longs(it) + 1, q.m) > 0
  {
    FileIsTakenIffNamed(slots, off, it, b, q);
  }

  // ---- a file whose entries cross a cluster boundary

  /** A cluster starts with the last `n` long entries of a file, and its short entry. */
  ghost predicate ContinuedAt(slots: seq<Slot>, it: Item, n: nat) {
    n < Longs(it) && n < |slots| && forall j :: 0 <= j <= n ==> slots[j] == SlotOf(it, Longs(it) - n + j)
  }

  lemma CountedUnmarked(a: seq<Char>, k: nat, check: nat, m: Memory)
    requires IsName(a) && 0 < k <= Needed(a) && k < 64
    ensures Counted(check, Long(ToChar(k), Units(a, k)), m) == if Agrees(a, k, m) then Dec(check) else check
  {
    SameIffAgrees(a, k, m);
  }

  lemma CheckContinuedStep(slots: seq<Slot>, it: Item, n: nat, j: nat, m: Memory)
    requires Storable(it) && ContinuedAt(slots, it, n) && 0 < j <= n
    ensures CheckAt(slots, j, m)
         == if Agrees(it.long, n - (j - 1), m) then Dec(CheckAt(slots, j - 1, m)) else CheckAt(slots, j - 1, m)
  {
    assert slots[j - 1] == SlotOf(it, Longs(it) - n + (j - 1));
    CountedUnmarked(it.long, n - (j - 1), CheckAt(slots, j - 1, m), m);
  }

  /** What 1 becomes after `k` decrements in 32 bits. */
  function Down(k: nat): (n: int) {
    if k <= 1 then 1 - k else 0x1_0000_0001 - k
  }

  lemma DownStep(k: nat, k': nat, agrees: bool, check: nat, check': nat)
    requires k < 64 && k' == k + (if agrees then 1 else 0)
    requires check == Down(k) && check' == if agrees then Dec(check) else check
    ensures check' == Down(k')
  {
  }

  lemma {:induction false} CheckContinued(slots: seq<Slot>, it: Item, n: nat, j: nat, m: Memory)
    requires Storable(it) && ContinuedAt(slots, it, n) && j <= n
    ensures CheckAt(slots, j, m) == Down(AgreeingDown(it.long, n, j, m))
  {
    if j > 0 {
      CheckContinued(slots, it, n, j - 1, m);
      DownContinued(slots, it, n, j, m);
    }
  }

  lemma DownContinued(slots: seq<Slot>, it: Item, n: nat, j: nat, m: Memory)
    requires Storable(it) && ContinuedAt(slots, it, n) && 0 < j <= n
    requires CheckAt(slots, j - 1, m) == Down(AgreeingDown(it.long, n, j - 1, m))
    ensures CheckAt(slots, j, m) == Down(AgreeingDown(it.long, n, j, m))
  {
    CheckContinuedStep(slots, it, n, j, m);
    DownStep(AgreeingDown(it.long, n, j - 1, m), AgreeingDown(it.long, n, j, m), Agrees(it.long, n - (j - 1), m),
             CheckAt(slots, j - 1, m), CheckAt(slots, j, m));
  }

  lemma QueryAgrees(b: seq<Char>, n: nat, m: Memory)
    requires Holds(m, b) && n <= Needed(b)
    ensures Agreeing(b, n, m) == n
  {
    AllAgreeIffEqual(b, b, m);
    AllAgreeing(b, n, m);
  }

  /**
   fat_dir_lookup starts its countdown at 1 in each cluster. So a file whose entries cross into a new cluster is taken
   there iff its short name is the query's or exactly one of the pieces left agrees: a file with the right long name is
   found by it iff one piece is left, and one with a wrong name is taken for it iff one of the pieces left agrees.
   */
  lemma ContinuedFileIsTakenIff(slots: seq<Slot>, it: Item, n: nat, b: seq<Char>, q: Query)
    requires Storable(it) && ContinuedAt(slots, it, n) && Holds(q.m, b)
    ensures StopsAt(slots, n, q) <==> it.short == q.short || Agreeing(it.long, n, q.m) == 1
    ensures it.long == b ==> (StopsAt(slots, n, q) <==> it.short == q.short || n == 1)
  {
    CheckContinued(slots, it, n, n, q.m);
    AgreeingDownSplits(it.long, n, n, q.m);
    assert slots[n] == SlotOf(it, Longs(it) - n + n);
    if it.long == b {
      QueryAgrees(b, n, q.m);
    }
  }

  /** The place where the k-th file starts. */
  function Offset(items: seq<Item>, k: nat): (n: nat)
    requires k <= |items|
  {
    if k == 0 then 0 else Offset(items, k - 1) + Longs(items[k - 1]) + 1
  }

  lemma {:induction false} OffsetPrefix(items: seq<Item>, n: nat, k: nat)
    requires k <= n <= |items|
    ensures Offset(items[..n], k) == Offset(items, k)
  {
    if k > 0 {
      OffsetPrefix(items, n, k - 1);
    }
  }

  lemma StoredAtFront(s: seq<Slot>, t: seq<Slot>, off: nat, it: Item)
    requires StoredAt(s, off, it)
    ensures StoredAt(s + t, off, it)
  {
    forall j | 0 <= j <= Longs(it) ensures (s + t)[off + j] == SlotOf(it, j) {
      assert s[off + j] == SlotOf(it, j);
    }
  }

  lemma StoredAtEnd(s: seq<Slot>, it: Item)
    ensures StoredAt(s + Slots(it), |s|, it)
  {
    forall j | 0 <= j <= Longs(it) ensures (s + Slots(it))[|s| + j] == SlotOf(it, j) {
      assert Slots(it)[j] == SlotOf(it, j);
    }
  }

  lemma {:induction false} LaidLength(items: seq<Item>, k: nat)
    requires k <= |items|
    ensures Offset(items, k) <= Offset(items, |items|) == |Laid(items)|
  {
    if items != [] {
      var n := |items| - 1;
      OffsetPrefix(items, n, n);
      LaidLength(items[..n], if k < n then k else n);
      if k < n {
        OffsetPrefix(items, n, k);
      }
    }
  }

  lemma {:induction false} LaidAt(items: seq<Item>, k: nat)
    requires k < |items|
    ensures StoredAt(Laid(items), Offset(items, k), items[k])
  {
    var n := |items| - 1;
    OffsetPrefix(items, n, k);
    if k < n {
      LaidAt(items[..n], k);
      StoredAtFront(Laid(items[..n]), Slots(items[n]), Offset(items, k), items[k]);
    } else {
      LaidLength(items[..n], n);
      StoredAtEnd(Laid(items[..n]), items[n]);
    }
  }

  /**
   The files of one cluster of a directory: perhaps the last `n` long entries and the short entry of a file that starts
   in the cluster before, whole files, and perhaps the first `n` entries of a file that goes on in the next cluster.
   */
  datatype Split = Whole | Part(it: Item, n: nat)
  datatype Cluster = Cluster(head: Split, items: seq<Item>, tail: Split)

  ghost predicate WellFormed(c: Cluster) {
    && (forall j :: 0 <= j < |c.items| ==> Storable(c.items[j]))
    && (c.head.Part? ==> Storable(c.head.it) && c.head.n < Longs(c.head.it))
    && (c.tail.Part? ==> c.tail.n <= Longs(c.tail.it))
  }

  function HeadSlots(c: Cluster): (s: seq<Slot>)
    requires c.head.Part? ==> c.head.n < Longs(c.head.it)
  {
    if c.head.Whole? then [] else Slots(c.head.it)[Longs(c.head.it) - c.head.n..]
  }

  function TailSlots(c: Cluster): (s: seq<Slot>)
    requires c.tail.Part? ==> c.tail.n <= Longs(c.tail.it)
  {
    if c.tail.Whole? then [] else Slots(c.tail.it)[..c.tail.n]
  }

  function ClusterSlots(c: Cluster): (s: seq<Slot>)
    requires (c.head.Part? ==> c.head.n < Longs(c.head.it)) && (c.tail.Part? ==> c.tail.n <= Longs(c.tail.it))
  {
    HeadSlots(c) + Laid(c.items) + TailSlots(c)
  }

  /** The place where the k-th whole file of the cluster starts. */
  function Place(c: Cluster, k: nat): (n: nat)
    requires k <= |c.items|
  {
    (if c.head.Part? then c.head.n + 1 else 0) + Offset(c.items, k)
  }

  /** The lookup takes the file that continues into the cluster. */
  ghost predicate HeadTaken(c: Cluster, q: Query) {
    c.head.Part? && c.head.it.Named? && (c.head.it.short == q.short || Agreeing(c.head.it.long, c.head.n, q.m) == 1)
  }

  lemma ClusterLaidOut(c: Cluster, k: nat)
    requires WellFormed(c) && k <= |c.items|
    ensures Place(c, k) <= |ClusterSlots(c)|
    ensures k < |c.items| ==> StoredAt(ClusterSlots(c), Place(c, k), c.items[k])
  {
    LaidLength(c.items, k);
    assert |HeadSlots(c)| == Place(c, 0);
    if k < |c.items| {
      LaidAt(c.items, k);
      StoredInside(HeadSlots(c), Laid(c.items), TailSlots(c), Offset(c.items, k), c.items[k]);
    }
  }

  lemma StoredInside(h: seq<Slot>, l: seq<Slot>, t: seq<Slot>, off: nat, it: Item)
    requires StoredAt(l, off, it)
    ensures StoredAt(h + l + t, |h| + off, it)
  {
    forall j | 0 <= j <= Longs(it) ensures (h + l + t)[|h| + off + j] == SlotOf(it, j) {
      assert (h + l + t)[|h| + off + j] == l[off + j];
    }
  }

  /** The lookup gets to the n-th entry, with a positive countdown. */
  ghost predicate Reaches(slots: seq<Slot>, n: nat, q: Query) {
    n <= |slots| && CheckAt(slots, n, q.m) > 0 && NoStopBefore(slots, n, q)
  }

  /** The file that continues into the cluster is taken iff `HeadTaken`, and otherwise leaves the countdown positive. */
  lemma HeadPassedOver(slots: seq<Slot>, c: Cluster, b: seq<Char>, q: Query)
    requires WellFormed(c) && slots == ClusterSlots(c) && Holds(q.m, b) && c.head.Part?
    ensures c.head.n < |slots| && NoStopBefore(slots, c.head.n, q)
    ensures StopsAt(slots, c.head.n, q) <==> HeadTaken(c, q)
    ensures !HeadTaken(c, q) ==> Reaches(slots, c.head.n + 1, q)
  {
    HeadIsContinued(c);
    ContinuedPassedOver(slots, c.head.it, c.head.n, b, q);
  }

  lemma HeadIsContinued(c: Cluster)
    requires WellFormed(c) && c.head.Part?
    ensures ContinuedAt(ClusterSlots(c), c.head.it, c.head.n)
  {
    var it, n := c.head.it, c.head.n;
    forall j | 0 <= j <= n ensures ClusterSlots(c)[j] == SlotOf(it, Longs(it) - n + j) {
      assert ClusterSlots(c)[j] == HeadSlots(c)[j];
    }
  }

  lemma ContinuedPassedOver(slots: seq<Slot>, it: Item, n: nat, b: seq<Char>, q: Query)
    requires Storable(it) && ContinuedAt(slots, it, n) && Holds(q.m, b)
    ensures NoStopBefore(slots, n, q)
    ensures !StopsAt(slots, n, q) ==> Reaches(slots, n + 1, q)
    ensures StopsAt(slots, n, q) <==> it.short == q.short || Agreeing(it.long, n, q.m) == 1
  {
    ContinuedFileIsTakenIff(slots, it, n, b, q);
    assert slots[n] == SlotOf(it, Longs(it) - n + n);
    forall j | 0 <= j < n ensures !StopsAt(slots, j, q) {
      assert slots[j] == SlotOf(it, Longs(it) - n + j);
    }
  }

  lemma NextPassedOver(slots: seq<Slot>, c: Cluster, b: seq<Char>, k: nat, q: Query)
    requires WellFormed(c) && slots == ClusterSlots(c) && k < |c.items| && Holds(q.m, b) && !Names(c.items[k], b, q)
    requires Reaches(slots, Place(c, k), q)
    ensures Reaches(slots, Place(c, k + 1), q)
  {
    ClusterLaidOut(c, k);
    PassedOver(slots, Place(c, k), c.items[k], b, q);
    assert Place(c, k + 1) == Place(c, k) + Longs(c.items[k]) + 1;
  }

  lemma HeadReached(slots: seq<Slot>, c: Cluster, b: seq<Char>, q: Query)
    requires WellFormed(c) && slots == ClusterSlots(c) && Holds(q.m, b) && !HeadTaken(c, q)
    ensures Reaches(slots, Place(c, 0), q)
  {
    if c.head.Part? {
      HeadPassedOver(slots, c, b, q);
    }
  }

  lemma {:induction false} NotTakenBefore(slots: seq<Slot>, c: Cluster, b: seq<Char>, k: nat, q: Query)
    requires WellFormed(c) && slots == ClusterSlots(c) && Holds(q.m, b) && !HeadTaken(c, q)
    requires k <= |c.items| && forall j :: 0 <= j < k ==> !Names(c.items[j], b, q)
    ensures Reaches(slots, Place(c, k), q)
  {
    if k == 0 {
      HeadReached(slots, c, b, q);
    } else {
      NotTakenBefore(slots, c, b, k - 1, q);
      NextPassedOver(slots, c, b, k - 1, q);
    }
  }

  /** A cluster without a file that is taken is passed over. */
  lemma LookupMisses(slots: seq<Slot>, c: Cluster, b: seq<Char>, q: Query)
    requires WellFormed(c) && slots == ClusterSlots(c) && Holds(q.m, b) && !HeadTaken(c, q)
    requires forall j :: 0 <= j < |c.items| ==> !Names(c.items[j], b, q)
    ensures IsFirstStop(slots, None, q)
  {
    var n := |c.items|;
    NotTakenBefore(slots, c, b, n, q);
    forall i | Place(c, n) <= i < |slots| ensures !StopsAt(slots, i, q) {
      TailIsLong(c, i);
    }
  }

  lemma TailIsLong(c: Cluster, i: nat)
    requires WellFormed(c) && Place(c, |c.items|) <= i < |ClusterSlots(c)|
    ensures ClusterSlots(c)[i].Long?
  {
    LaidLength(c.items, |c.items|);
    var j := i - Place(c, |c.items|);
    assert ClusterSlots(c)[i] == TailSlots(c)[j] == SlotOf(c.tail.it, j);
  }

  /** If no file continues into the cluster and is taken, the first file that the query names is found. */
  lemma LookupFinds(slots: seq<Slot>, c: Cluster, b: seq<Char>, k: nat, q: Query)
    requires WellFormed(c) && slots == ClusterSlots(c) && Holds(q.m, b) && !HeadTaken(c, q)
    requires k < |c.items| && Names(c.items[k], b, q) && forall j :: 0 <= j < k ==> !Names(c.items[j], b, q)
    ensures IsFirstStop(slots, Some(Place(c, k) + Longs(c.items[k])), q)
    ensures slots[Place(c, k) + Longs(c.items[k])] == Short(c.items[k].short)
  {
    NotTakenBefore(slots, c, b, k, q);
    ClusterLaidOut(c, k);
    TakenAt(slots, Place(c, k), c.items[k], b, q);
  }

  lemma TakenAt(slots: seq<Slot>, off: nat, it: Item, b: seq<Char>, q: Query)
    requires Storable(it) && StoredAt(slots, off, it) && Holds(q.m, b) && Reaches(slots, off, q) && Names(it, b, q)
    ensures slots[off + Longs(it)] == Short(it.short)
    ensures StopsAt(slots, off + Longs(it), q) && NoStopBefore(slots, off + Longs(it), q)
  {
    FileIsTakenIffNamed(slots, off, it, b, q);
    assert slots[off + Longs(it)] == SlotOf(it, Longs(it));
  }

  /** The first whole file of a cluster that the query names. */
  ghost function FirstNamed(items: seq<Item>, b: seq<Char>, q: Query): (k: nat)
    ensures k <= |items| && (forall j :: 0 <= j < k ==> !Names(items[j], b, q))
    ensures k < |items| ==> Names(items[k], b, q)
  {
    if items == [] then 0 else
    var k := FirstNamed(items[..|items| - 1], b, q);
    if k < |items| - 1 || Names(items[k], b, q) then k else |items|
  }

  /** What the lookup finds in a cluster: the file that continues into it, the first file named, or nothing. */
  ghost function FoundIn(c: Cluster, b: seq<Char>, q: Query): (r: Option<nat>) {
    if HeadTaken(c, q) then Some(c.head.n)
    else
      var k := FirstNamed(c.items, b, q);
      if k < |c.items| then Some(Place(c, k) + Longs(c.items[k])) else None
  }

  lemma FoundInCluster(slots: seq<Slot>, c: Cluster, b: seq<Char>, q: Query)
    requires WellFormed(c) && slots == ClusterSlots(c) && Holds(q.m, b)
    ensures IsFirstStop(slots, FoundIn(c, b, q), q)
  {
    var k := FirstNamed(c.items, b, q);
    if HeadTaken(c, q) {
      HeadPassedOver(slots, c, b, q);
    } else if k < |c.items| {
      LookupFinds(slots, c, b, k, q);
    } else {
      LookupMisses(slots, c, b, q);
    }
  }

  /** What is found in the clusters of a directory from the n-th on: the first thing found in one of them. */
  ghost function FoundFrom(dir: seq<Cluster>, n: nat, b: seq<Char>, q: Query): (r: Option<(nat, nat)>)
    requires n <= |dir|
    decreases |dir| - n
  {
    if n == |dir| then None
    else if FoundIn(dir[n], b, q).Some? then Some((n, FoundIn(dir[n], b, q).value))
    else FoundFrom(dir, n + 1, b, q)
  }

  lemma {:induction false} FoundFromIsFirst(dir: seq<Cluster>, n: nat, b: seq<Char>, q: Query, c: nat)
    requires n <= c < |dir|
    ensures var r := FoundFrom(dir, n, b, q);
            && (r.None? ==> FoundIn(dir[c], b, q) == None)
            && (r.Some? ==> n <= r.value.0 < |dir| && (c < r.value.0 ==> FoundIn(dir[c], b, q) == None)
                            && (c == r.value.0 ==> FoundIn(dir[c], b, q) == Some(r.value.1)))
    decreases |dir| - n
  {
    if n < |dir| - 1 && FoundIn(dir[n], b, q) == None {
      FoundFromIsFirst(dir, n + 1, b, q, if c == n then n + 1 else c);
    }
  }

  /** The first `n` clusters hold the files of the directory. */
  ghost predicate Stores(clusters: seq<seq<Slot>>, dir: seq<Cluster>, n: nat) {
    n <= |clusters| && n <= |dir|
    && (n == 0 || (Stores(clusters, dir, n - 1) && WellFormed(dir[n - 1]) && clusters[n - 1] == ClusterSlots(dir[n - 1])))
  }

  lemma {:induction false} StoresAt(clusters: seq<seq<Slot>>, dir: seq<Cluster>, n: nat, k: nat)
    requires Stores(clusters, dir, n) && k < n
    ensures WellFormed(dir[k]) && clusters[k] == ClusterSlots(dir[k])
  {
    if k == n - 1 {
      return;
    }
    StoresAt(clusters, dir, n - 1, k);
  }

  method FindInCluster(clusters: seq<seq<Slot>>, n: nat, m: Memory, ghost q: Query, ghost dir: seq<Cluster>, ghost b: seq<Char>)
    returns (r: Option<nat>)
    requires q.m == m && IsQuery(q)
    requires |dir| == |clusters| && Stores(clusters, dir, |dir|) && n < |dir| && Holds(q.m, b)
    ensures r == FoundIn(dir[n], b, q)
  {
    StoresAt(clusters, dir, |dir|, n);
    r := LookupInCluster(clusters[n], m, q);
    FoundInCluster(clusters[n], dir[n], b, q);
    FirstStopIsUnique(clusters[n], r, FoundIn(dir[n], b, q), q);
  }

  /**
   fat_dir_lookup over the clusters of a directory: finds the first file that is taken in its cluster. In a directory
   whose files do not cross clusters, that is the first file that the query names.
   */
  method Lookup(clusters: seq<seq<Slot>>, m: Memory, ghost q: Query, ghost dir: seq<Cluster>, ghost b: seq<Char>)
    returns (r: Option<(nat, nat)>)
    requires q.m == m && IsQuery(q)
    requires Holds(m, b) && |dir| == |clusters| && Stores(clusters, dir, |dir|)
    ensures r == FoundFrom(dir, 0, b, q)
  {
    ghost var all := FoundFrom(dir, 0, b, q);
    for n: nat := 0 to |clusters|
      invariant all == FoundFrom(dir, n, b, q)
    {
      var i := FindInCluster(clusters, n, m, q, dir, b);
      if i.Some? {
        return Some((n, i.value));
      }
    }
    r := None;
  }

  /** fat_alloc_LongNameFile: writes the entries of a name, and its short entry, into free slots. */
  method StoreName(slots: array<Slot>, at: nat, name: seq<Char>, short: Field)
    requires IsName(name) && at + Needed(name) < slots.Length
    modifies slots
    ensures StoredAt(slots[..], at, Named(name, short))
    ensures forall i :: 0 <= i < slots.Length && (i < at || i > at + Needed(name)) ==> slots[i] == old(slots[i])
  {
    var n := Needed(name);
    var it := Named(name, short);
    var e := new LongEntry();
    e.FillName(name, n);
    slots[at] := Long(LastOrder(n), e.Value());
    for i: nat := 1 to n
      invariant e.Shaped() && fresh(e.name1) && fresh(e.name2) && fresh(e.name3)
      invariant forall j :: 0 <= j < i ==> slots[at + j] == SlotOf(it, j)
      invariant forall k :: 0 <= k < slots.Length && (k < at || k > at + n) ==> slots[k] == old(slots[k])
    {
      e.FillName(name, n - i);
      slots[at + i] := Long(ToChar(n - i), e.Value());
    }
    slots[at + n] := Short(short);
  }
}
