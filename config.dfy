/**
 * Two value routines of the container configuration: the human-readable memory size
 * (ConfigMemory.Int64) and the structural comparison of two container specifications
 * (ConfigContainer.IsEqualTo, with the name of the first attribute found unequal).
 */
module Config {
  import opened Types

  // ---------------------------------------------------------------------------
  // ConfigMemory.Int64
  // ---------------------------------------------------------------------------

  predicate IsDigit(ch: char) {
    '0' <= ch <= '9'
  }

  predicate AllDigits(s: string) {
    forall i :: 0 <= i < |s| ==> IsDigit(s[i])
  }

  function DigitValue(ch: char): nat
    requires IsDigit(ch)
  {
    (ch as int) - ('0' as int)
  }

  /** The value of a run of decimal digits, most significant digit first. */
  function Decimal(d: string): nat
    requires AllDigits(d)
  {
    if d == [] then 0 else Decimal(d[..|d| - 1]) * 10 + DigitValue(d[|d| - 1])
  }

  /** Length of the leading run of digits: every character before it is a digit, the one after it is not. */
  function DigitRun(s: string): (k: nat)
    ensures k <= |s|
    ensures AllDigits(s[..k])
    ensures k < |s| ==> !IsDigit(s[k])
  {
    if s != [] && IsDigit(s[0]) then
      var k := 1 + DigitRun(s[1..]);
      assert s[..k] == [s[0]] + s[1..][..k - 1];
      k
    else 0
  }

  /** The multiplier a suffix character stands for; any other character multiplies by one. */
  function SuffixFactor(ch: char): nat {
    match ch
    case 'b' => 1
    case 'k' => 1024
    case 'm' => 1024 * 1024
    case 'g' => 1024 * 1024 * 1024
    case _ => 1
  }

  /**
   * The number of bytes a memory value stands for: the literal "-1" means unlimited;
   * otherwise the leading digit run, times the factor of the character right after it.
   */
  function MemoryBytes(s: string): int {
    if s == "-1" then -1
    else
      var k := DigitRun(s);
      Decimal(s[..k]) * (if k < |s| then SuffixFactor(s[k]) else 1)
  }

  /** ConfigMemory.Int64: scans the digit run, then applies the suffix. */
  method Int64(m: string) returns (n: int)
    ensures n == MemoryBytes(m)
  {
    if m == "-1" {
      return -1;
    }
    var i := 0;
    var acc := 0;
    while i < |m| && IsDigit(m[i])
      invariant 0 <= i <= |m|
      invariant AllDigits(m[..i])
      invariant acc == Decimal(m[..i])
    {
      assert m[..i + 1][..i] == m[..i];
      acc := acc * 10 + DigitValue(m[i]);
      i := i + 1;
    }
    DigitRunUnique(m, i);
    var factor := if i < |m| then SuffixFactor(m[i]) else 1;
    n := acc * factor;
  }

  /** A maximal prefix of digits has the length DigitRun computes. */
  lemma {:induction false} DigitRunUnique(s: string, k: nat)
    requires k <= |s| && AllDigits(s[..k])
    requires k < |s| ==> !IsDigit(s[k])
    ensures DigitRun(s) == k
  {
    if k > 0 {
      assert IsDigit(s[..k][0]);
      assert s[1..][..k - 1] == s[..k][1..];
      DigitRunUnique(s[1..], k - 1);
    }
  }

  /** A plain run of digits is a byte count. */
  lemma MemoryOfDigits(d: string)
    requires AllDigits(d)
    ensures MemoryBytes(d) == Decimal(d)
  {
    assert d[..|d|] == d;
    DigitRunUnique(d, |d|);
  }

  /**
   * Digits followed by any non-digit character: the character's factor applies and
   * everything after it is ignored.
   */
  lemma MemoryWithSuffix(d: string, ch: char, rest: string)
    requires AllDigits(d) && !IsDigit(ch)
    requires d + [ch] + rest != "-1"
    ensures MemoryBytes(d + [ch] + rest) == Decimal(d) * SuffixFactor(ch)
  {
    var s := d + [ch] + rest;
    assert s[..|d|] == d;
    assert s[|d|] == ch;
    DigitRunUnique(s, |d|);
  }

  /** Every value other than "-1" is a non-negative byte count. */
  lemma MemoryNonNegative(s: string)
    requires s != "-1"
    ensures MemoryBytes(s) >= 0
  {
  }

  lemma DecimalHundred()
    ensures AllDigits("100") && Decimal("100") == 100
  {
    assert Decimal("1") == 1 by { assert "1"[..0] == ""; }
    assert Decimal("10") == 10 by { assert "10"[..1] == "1"; }
    assert "100"[..2] == "10";
  }

  /** The plain values of TestConfigMemoryInt64. */
  lemma MemoryPlainExamples()
    ensures MemoryBytes("-1") == -1
    ensures MemoryBytes("0") == 0
    ensures MemoryBytes("100") == 100
    ensures MemoryBytes("100x") == 100
  {
    DecimalHundred();
    MemoryOfDigits("0");
    MemoryOfDigits("100");
    MemoryWithSuffix("100", 'x', "");
    assert "100" + ['x'] + "" == "100x";
  }

  /** The suffixed values of TestConfigMemoryInt64. */
  lemma MemorySuffixExamples()
    ensures MemoryBytes("100b") == 100
    ensures MemoryBytes("100k") == 102400
    ensures MemoryBytes("100m") == 104857600
    ensures MemoryBytes("100g") == 107374182400
  {
    HundredWithSuffix('b');
    assert "100" + ['b'] == "100b";
    HundredWithSuffix('k');
    assert "100" + ['k'] == "100k";
    HundredWithSuffix('m');
    assert "100" + ['m'] == "100m";
    HundredWithSuffix('g');
    assert "100" + ['g'] == "100g";
  }

  /** "100" followed by one non-digit character is a hundred times that character's factor. */
  lemma HundredWithSuffix(ch: char)
    requires !IsDigit(ch)
    ensures MemoryBytes("100" + [ch]) == 100 * SuffixFactor(ch)
  {
    DecimalHundred();
    MemoryWithSuffix("100", ch, "");
    assert "100" + [ch] + "" == "100" + [ch];
  }

  // ---------------------------------------------------------------------------
  // ConfigContainer.IsEqualTo
  // ---------------------------------------------------------------------------

  /** A nil slice reads as an empty one. */
  function OrEmptySeq<T>(o: Option<seq<T>>): seq<T> {
    if o.Some? then o.value else []
  }

  /** A nil map reads as an empty one. */
  function OrEmptyMap<K, V>(o: Option<map<K, V>>): map<K, V> {
    if o.Some? then o.value else map[]
  }

  /** Lists compare by length first, then position by position. */
  function SliceEqual<T(==)>(a: seq<T>, b: seq<T>): bool {
    |a| == |b| && (a == [] || (a[0] == b[0] && SliceEqual(a[1..], b[1..])))
  }

  /** Maps compare by size first, then key by key. */
  function MapEqual<K, V(==)>(a: map<K, V>, b: map<K, V>): bool {
    |a| == |b| && forall k :: k in a ==> k in b && a[k] == b[k]
  }

  /** Pointer scalars: both nil, or both set to equal values. */
  function PointerEqual<T(==)>(a: Option<T>, b: Option<T>): bool {
    match (a, b)
    case (None, None) => true
    case (Some(x), Some(y)) => x == y
    case _ => false
  }

  /** The attribute names, in the order the comparator visits them. */
  const FIELDS: seq<string> := ["Image", "CpusetCpus", "CpuShares", "Dns", "Labels", "VolumesFrom"]

  /** The comparison of attribute number k. */
  function FieldEqual(a: ConfigContainer, b: ConfigContainer, k: nat): bool
    requires k < |FIELDS|
  {
    if k == 0 then a.image == b.image
    else if k == 1 then a.cpusetCpus == b.cpusetCpus
    else if k == 2 then PointerEqual(a.cpuShares, b.cpuShares)
    else if k == 3 then SliceEqual(OrEmptySeq(a.dns), OrEmptySeq(b.dns))
    else if k == 4 then MapEqual(OrEmptyMap(a.labels), OrEmptyMap(b.labels))
    else SliceEqual(a.volumesFrom, b.volumesFrom)
  }

  /** The first attribute from number k on that compares unequal. */
  function FirstDifferenceFrom(a: ConfigContainer, b: ConfigContainer, k: nat): (r: Option<nat>)
    requires k <= |FIELDS|
    ensures r.Some? ==> k <= r.value < |FIELDS| && !FieldEqual(a, b, r.value)
    ensures r.Some? ==> forall j :: k <= j < r.value ==> FieldEqual(a, b, j)
    ensures r.None? <==> forall j :: k <= j < |FIELDS| ==> FieldEqual(a, b, j)
    decreases |FIELDS| - k
  {
    if k == |FIELDS| then None
    else if !FieldEqual(a, b, k) then Some(k)
    else FirstDifferenceFrom(a, b, k + 1)
  }

  /** The name of the first attribute found unequal (LastCompareField), None when equal. */
  function FirstDifference(a: ConfigContainer, b: ConfigContainer): (r: Option<string>)
    ensures r.None? <==> forall j :: 0 <= j < |FIELDS| ==> FieldEqual(a, b, j)
    ensures r.Some? ==> exists k :: 0 <= k < |FIELDS| && r.value == FIELDS[k] && !FieldEqual(a, b, k)
  {
    match FirstDifferenceFrom(a, b, 0)
    case None => None
    case Some(k) => Some(FIELDS[k])
  }

  /** ConfigContainer.IsEqualTo. */
  function IsEqualTo(a: ConfigContainer, b: ConfigContainer): bool {
    FirstDifference(a, b).None?
  }

  /** The reference notion of equality: absent collections read as empty ones. */
  function Canonical(c: ConfigContainer): ConfigContainer {
    c.(dns := Some(OrEmptySeq(c.dns)), labels := Some(OrEmptyMap(c.labels)))
  }

  lemma {:induction false} SliceEqualIsEquality<T>(a: seq<T>, b: seq<T>)
    ensures SliceEqual(a, b) <==> a == b
    decreases |a|
  {
    if |a| == |b| && a != [] {
      SliceEqualIsEquality(a[1..], b[1..]);
      if a[0] == b[0] && a[1..] == b[1..] {
        assert a == [a[0]] + a[1..] && b == [b[0]] + b[1..];
      }
    }
  }

  lemma MapEqualIsEquality<K, V>(a: map<K, V>, b: map<K, V>)
    ensures MapEqual(a, b) <==> a == b
  {
    if MapEqual(a, b) {
      assert a.Keys <= b.Keys;
      var extra := b.Keys - a.Keys;
      assert b.Keys == a.Keys + extra;
      assert |b.Keys| == |a.Keys| + |extra|;
      assert extra == {};
      assert a.Keys == b.Keys;
    }
  }

  /**
   * IsEqualTo is equality once absent collections are read as empty: scalars by value,
   * pointer scalars by the value pointed to (presence on one side only is unequal),
   * lists by length and elements, maps by size, keys and values.
   */
  lemma IsEqualToIsCanonicalEquality(a: ConfigContainer, b: ConfigContainer)
    ensures IsEqualTo(a, b) <==> Canonical(a) == Canonical(b)
  {
    SliceEqualIsEquality(OrEmptySeq(a.dns), OrEmptySeq(b.dns));
    SliceEqualIsEquality(a.volumesFrom, b.volumesFrom);
    MapEqualIsEquality(OrEmptyMap(a.labels), OrEmptyMap(b.labels));
    assert PointerEqual(a.cpuShares, b.cpuShares) <==> a.cpuShares == b.cpuShares;
    var all := forall j :: 0 <= j < |FIELDS| ==> FieldEqual(a, b, j);
    assert all <==> (FieldEqual(a, b, 0) && FieldEqual(a, b, 1) && FieldEqual(a, b, 2)
                     && FieldEqual(a, b, 3) && FieldEqual(a, b, 4) && FieldEqual(a, b, 5));
  }

  lemma IsEqualToReflexive(a: ConfigContainer)
    ensures IsEqualTo(a, a)
  {
    IsEqualToIsCanonicalEquality(a, a);
  }

  lemma IsEqualToSymmetric(a: ConfigContainer, b: ConfigContainer)
    ensures IsEqualTo(a, b) <==> IsEqualTo(b, a)
  {
    IsEqualToIsCanonicalEquality(a, b);
    IsEqualToIsCanonicalEquality(b, a);
  }

  /** FirstDifference reports the earliest attribute on which the canonical values differ. */
  lemma FirstDifferenceIsEarliest(a: ConfigContainer, b: ConfigContainer, k: nat)
    requires k < |FIELDS| && FirstDifference(a, b) == Some(FIELDS[k])
    ensures !FieldEqual(a, b, k) && forall j :: 0 <= j < k ==> FieldEqual(a, b, j)
  {
    var r := FirstDifferenceFrom(a, b, 0);
    assert r.Some? && FIELDS[r.value] == FIELDS[k];
    // the attribute names are pairwise distinct
    assert r.value == k;
  }

  /** TestConfigIsEqualTo_Empty and TestConfigIsEqualTo_SimpleValue. */
  lemma IsEqualToScalarExamples(s: string, t: string)
    requires s != t
    ensures IsEqualTo(EMPTY_CONFIG, EMPTY_CONFIG)
    ensures IsEqualTo(EMPTY_CONFIG.(image := s), EMPTY_CONFIG.(image := s))
    ensures !IsEqualTo(EMPTY_CONFIG.(image := s), EMPTY_CONFIG.(image := t))
  {
    IsEqualToReflexive(EMPTY_CONFIG);
    IsEqualToReflexive(EMPTY_CONFIG.(image := s));
    IsEqualToIsCanonicalEquality(EMPTY_CONFIG.(image := s), EMPTY_CONFIG.(image := t));
  }

  /** TestConfigIsEqualTo_PointerValue. */
  lemma IsEqualToPointerExamples(x: int, y: int)
    requires x != y
    ensures IsEqualTo(EMPTY_CONFIG.(cpuShares := Some(x)), EMPTY_CONFIG.(cpuShares := Some(x)))
    ensures !IsEqualTo(EMPTY_CONFIG.(cpuShares := Some(x)), EMPTY_CONFIG.(cpuShares := Some(y)))
    ensures !IsEqualTo(EMPTY_CONFIG.(cpuShares := Some(x)), EMPTY_CONFIG)
    ensures !IsEqualTo(EMPTY_CONFIG, EMPTY_CONFIG.(cpuShares := Some(y)))
  {
    var e := EMPTY_CONFIG;
    IsEqualToReflexive(e.(cpuShares := Some(x)));
    IsEqualToIsCanonicalEquality(e.(cpuShares := Some(x)), e.(cpuShares := Some(y)));
    IsEqualToIsCanonicalEquality(e.(cpuShares := Some(x)), e);
    IsEqualToIsCanonicalEquality(e, e.(cpuShares := Some(y)));
  }

  /** TestConfigIsEqualTo_Slices. */
  lemma IsEqualToSliceExamples(s: string, t: string)
    requires s != t
    ensures IsEqualTo(EMPTY_CONFIG.(dns := Some([s])), EMPTY_CONFIG.(dns := Some([s])))
    ensures IsEqualTo(EMPTY_CONFIG.(dns := Some([])), EMPTY_CONFIG)
    ensures IsEqualTo(EMPTY_CONFIG, EMPTY_CONFIG.(dns := Some([])))
    ensures !IsEqualTo(EMPTY_CONFIG.(dns := Some([s, t])), EMPTY_CONFIG.(dns := Some([s])))
    ensures !IsEqualTo(EMPTY_CONFIG.(dns := Some([s])), EMPTY_CONFIG.(dns := Some([s, t])))
    ensures !IsEqualTo(EMPTY_CONFIG.(dns := Some([s])), EMPTY_CONFIG.(dns := Some([])))
    ensures !IsEqualTo(EMPTY_CONFIG.(dns := Some([s])), EMPTY_CONFIG.(dns := Some([t])))
    ensures !IsEqualTo(EMPTY_CONFIG, EMPTY_CONFIG.(dns := Some([t])))
    ensures !IsEqualTo(EMPTY_CONFIG.(dns := Some([s])), EMPTY_CONFIG)
  {
    var e := EMPTY_CONFIG;
    IsEqualToReflexive(e.(dns := Some([s])));
    IsEqualToIsCanonicalEquality(e.(dns := Some([])), e);
    IsEqualToIsCanonicalEquality(e, e.(dns := Some([])));
    IsEqualToIsCanonicalEquality(e.(dns := Some([s, t])), e.(dns := Some([s])));
    IsEqualToIsCanonicalEquality(e.(dns := Some([s])), e.(dns := Some([s, t])));
    IsEqualToIsCanonicalEquality(e.(dns := Some([s])), e.(dns := Some([])));
    IsEqualToIsCanonicalEquality(e.(dns := Some([s])), e.(dns := Some([t])));
    IsEqualToIsCanonicalEquality(e, e.(dns := Some([t])));
    IsEqualToIsCanonicalEquality(e.(dns := Some([s])), e);
  }

  /** TestConfigIsEqualTo_Maps. */
  lemma IsEqualToMapExamples(s: string, t: string, v: string)
    requires s != t
    ensures IsEqualTo(EMPTY_CONFIG.(labels := Some(map[s := v])), EMPTY_CONFIG.(labels := Some(map[s := v])))
    ensures IsEqualTo(EMPTY_CONFIG.(labels := Some(map[])), EMPTY_CONFIG)
    ensures IsEqualTo(EMPTY_CONFIG, EMPTY_CONFIG.(labels := Some(map[])))
    ensures !IsEqualTo(EMPTY_CONFIG.(labels := Some(map[s := v])), EMPTY_CONFIG.(labels := Some(map[])))
    ensures !IsEqualTo(EMPTY_CONFIG.(labels := Some(map[])), EMPTY_CONFIG.(labels := Some(map[s := v])))
    ensures !IsEqualTo(EMPTY_CONFIG.(labels := Some(map[t := v])), EMPTY_CONFIG.(labels := Some(map[s := v])))
    ensures !IsEqualTo(EMPTY_CONFIG.(labels := Some(map[s := v, t := v])), EMPTY_CONFIG.(labels := Some(map[s := v])))
    ensures !IsEqualTo(EMPTY_CONFIG.(labels := Some(map[s := v])), EMPTY_CONFIG.(labels := Some(map[s := v, t := v])))
  {
    var e := EMPTY_CONFIG;
    var one, other, both := map[s := v], map[t := v], map[s := v, t := v];
    assert one != map[] by { assert s in one; }
    assert other != one && both != one by { assert t in other && t in both && t !in one; }
    IsEqualToReflexive(e.(labels := Some(one)));
    IsEqualToIsCanonicalEquality(e.(labels := Some(map[])), e);
    IsEqualToIsCanonicalEquality(e, e.(labels := Some(map[])));
    IsEqualToIsCanonicalEquality(e.(labels := Some(one)), e.(labels := Some(map[])));
    IsEqualToIsCanonicalEquality(e.(labels := Some(map[])), e.(labels := Some(one)));
    IsEqualToIsCanonicalEquality(e.(labels := Some(other)), e.(labels := Some(one)));
    IsEqualToIsCanonicalEquality(e.(labels := Some(both)), e.(labels := Some(one)));
    IsEqualToIsCanonicalEquality(e.(labels := Some(one)), e.(labels := Some(both)));
  }
}
