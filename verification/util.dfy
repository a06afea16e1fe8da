/** The viewer's pure display helpers: the short display name of a module path and the choice of
    a byte unit. */
module Util {
  import opened Wrappers
  import opened Strings

  // ---------------------------------------------------------------------------------------------
  // Source names

  /** A character the extension pattern `/^[a-z0-9]+$/` accepts. */
  predicate IsExtensionChar(ch: char) {
    'a' <= ch <= 'z' || '0' <= ch <= '9'
  }

  /** The extension test: one or more lower-case letters or digits, nothing else. */
  predicate IsExtension(ext: string) {
    1 <= |ext| && forall i :: 0 <= i < |ext| ==> IsExtensionChar(ext[i])
  }

  /** The display name keeps only its own last segment: some `.` is followed by an extension up to
      the end of the name. */
  ghost predicate HasExtension(name: string) {
    exists i :: 0 <= i < |name| && name[i] == '.' && IsExtension(name[i + 1..])
  }

  /** The last segment of the path (the first `pathList.pop()`). */
  function LastName(sourcePath: string): string {
    var parts := Split(sourcePath, '/');
    parts[|parts| - 1]
  }

  /** The segment before it, or `None` for JavaScript's `undefined` (the second `pathList.pop()`). */
  function Dir(sourcePath: string): Option<string> {
    var parts := Split(sourcePath, '/');
    if 2 <= |parts| then Some(parts[|parts| - 2]) else None
  }

  /** The last segment, and the parent segment with its separator, end the path. */
  lemma {:induction false} SegmentsAreSuffixes(sourcePath: string)
    ensures '/' !in LastName(sourcePath)
    ensures IsSuffix(LastName(sourcePath), sourcePath)
    ensures Dir(sourcePath).Some? ==>
      '/' !in Dir(sourcePath).value && IsSuffix(Dir(sourcePath).value + "/" + LastName(sourcePath), sourcePath)
  {
    JoinSplit(sourcePath, '/');
    JoinEndsWithLastParts(Split(sourcePath, '/'), "/");
  }

  /** The last part, and the last two parts with the separator between them, end a join. */
  lemma {:induction false} JoinEndsWithLastParts(parts: seq<string>, sep: string)
    requires 1 <= |parts|
    ensures IsSuffix(parts[|parts| - 1], Join(parts, sep))
    ensures 2 <= |parts| ==> IsSuffix(parts[|parts| - 2] + sep + parts[|parts| - 1], Join(parts, sep))
  {
    var n := |parts|;
    if n >= 2 {
      var front := parts[..n - 1];
      JoinLast(parts, sep);
      var last2 := parts[n - 2] + sep + parts[n - 1];
      if n >= 3 {
        JoinLast(front, sep);
        assert front[..n - 2] == parts[..n - 2];
        assert Join(parts, sep) == (Join(parts[..n - 2], sep) + sep) + last2;
        SuffixOfConcat(Join(parts[..n - 2], sep) + sep, last2);
      } else {
        assert Join(parts, sep) == last2;
        SuffixOfConcat("", last2);
      }
      assert Join(parts, sep) == (Join(front, sep) + sep) + parts[n - 1];
      SuffixOfConcat(Join(front, sep) + sep, parts[n - 1]);
    }
  }

  /** The right operand of a concatenation ends it. */
  lemma {:induction false} SuffixOfConcat(y: string, z: string)
    ensures IsSuffix(z, y + z)
  {
    assert (y + z)[|y|..] == z;
  }

  /** The choice `getSourceName` makes from the last segment and the parent segment: the last
      segment alone when it has an extension, otherwise the parent, `/` and the last segment when
      the parent is non-empty, otherwise the last segment alone. */
  function SourceNameOf(lastName: string, dir: Option<string>): (r: string)
    ensures HasExtension(lastName) ==> r == lastName
    ensures !HasExtension(lastName) && dir.Some? && dir.value != "" ==> r == dir.value + "/" + lastName
    ensures !HasExtension(lastName) && (dir.None? || dir.value == "") ==> r == lastName
  {
    ExtensionTestIsHasExtension(lastName);
    var index := LastIndexOf(lastName, '.');
    if index != -1 && IsExtension(lastName[index + 1..]) then
      lastName
    else if dir.Some? && dir.value != "" then
      dir.value + "/" + lastName
    else
      lastName
  }

  /** `getSourceName(sourcePath)`: the choice of `SourceNameOf` on the last two segments. The
      result always ends the path and holds at most one `/`. */
  function GetSourceName(sourcePath: string): (r: string)
    ensures IsSuffix(r, sourcePath)
    ensures multiset(r)['/'] <= 1
  {
    SegmentsAreSuffixes(sourcePath);
    var lastName := LastName(sourcePath);
    var dir := Dir(sourcePath);
    assert dir.Some? ==>
      multiset(dir.value + "/" + lastName) == multiset(dir.value) + multiset("/") + multiset(lastName);
    SourceNameOf(lastName, dir)
  }

  /** The extension test of `getSourceName` (last `.`, then the pattern) holds exactly when the
      name has an extension. */
  lemma {:induction false} ExtensionTestIsHasExtension(name: string)
    ensures (LastIndexOf(name, '.') != -1 && IsExtension(name[LastIndexOf(name, '.') + 1..]))
        <==> HasExtension(name)
  {
    var index := LastIndexOf(name, '.');
    if HasExtension(name) {
      var i :| 0 <= i < |name| && name[i] == '.' && IsExtension(name[i + 1..]);
      assert index >= i;
    }
  }

  /** The segments of a path with at least one separator. */
  lemma {:induction false} SegmentsOf(front: string, name: string)
    requires '/' !in name
    ensures LastName(front + "/" + name) == name
    ensures Dir(front + "/" + name) == Some(LastName(front))
  {
    SplitConcat(front, name, '/');
    SplitNone(name, '/');
    assert front + "/" + name == front + ['/'] + name;
  }

  /** A path without separators is its own last segment, with no parent. */
  lemma {:induction false} SegmentsOfName(name: string)
    requires '/' !in name
    ensures LastName(name) == name && Dir(name) == None
  {
    SplitNone(name, '/');
  }

  /** A last segment with an extension is shown alone, whatever precedes it. */
  lemma {:induction false} SourceNameWithExtension(front: string, name: string)
    requires '/' !in name
    requires HasExtension(name)
    ensures GetSourceName(name) == name
    ensures GetSourceName(front + "/" + name) == name
  {
    SegmentsOfName(name);
    SourceNameOfExtended(name, name);
    SegmentsOf(front, name);
    SourceNameOfExtended(front + "/" + name, name);
  }

  /** The extension case of `getSourceName`, stated on the last segment of the path. */
  lemma {:induction false} SourceNameOfExtended(sourcePath: string, name: string)
    requires LastName(sourcePath) == name
    requires HasExtension(name)
    ensures GetSourceName(sourcePath) == name
  {
  }

  /** Without an extension, a non-empty parent segment is kept in front of the last one. */
  lemma {:induction false} SourceNameWithParent(front: string, dir: string, name: string)
    requires '/' !in dir && '/' !in name
    requires dir != ""
    requires !HasExtension(name)
    ensures GetSourceName(dir + "/" + name) == dir + "/" + name
    ensures GetSourceName(front + "/" + dir + "/" + name) == dir + "/" + name
  {
    SegmentsOfName(dir);
    SegmentsOf(dir, name);
    SourceNameFromSegments(dir + "/" + name, dir, name);
    SegmentsOf(front, dir);
    SegmentsOf(front + "/" + dir, name);
    SourceNameFromSegments(front + "/" + dir + "/" + name, dir, name);
  }

  /** The extension-free case of `getSourceName`, stated on the segments of the path. */
  lemma {:induction false} SourceNameFromSegments(sourcePath: string, dir: string, name: string)
    requires LastName(sourcePath) == name && Dir(sourcePath) == Some(dir)
    requires dir != ""
    requires !HasExtension(name)
    ensures GetSourceName(sourcePath) == dir + "/" + name
  {
  }

  /** Without an extension and without a parent segment, or with an empty one (`"/x"`,
      `"a//x"`), the last segment is shown alone. */
  lemma {:induction false} SourceNameWithoutParent(front: string, name: string)
    requires '/' !in name
    requires !HasExtension(name)
    ensures GetSourceName(name) == name
    ensures GetSourceName("/" + name) == name
    ensures GetSourceName(front + "//" + name) == name
  {
    ExtensionTestIsHasExtension(name);
    SegmentsOfName(name);
    SourceNameEmptyParent("", name);
    assert "" + "/" + name == "/" + name;
    SourceNameEmptyParent(front + "/", name);
    assert front + "/" + "/" + name == front + "//" + name;
  }

  /** The case of `SourceNameWithoutParent` where the parent segment is empty. */
  lemma {:induction false} SourceNameEmptyParent(front: string, name: string)
    requires '/' !in name
    requires !HasExtension(name)
    requires front == "" || front[|front| - 1] == '/'
    ensures GetSourceName(front + "/" + name) == name
  {
    ExtensionTestIsHasExtension(name);
    SegmentsOf(front, name);
    if front == "" {
      SegmentsOfName("");
    } else {
      var before := front[..|front| - 1];
      assert front == before + "/" + "";
      SegmentsOf(before, "");
    }
  }

  /** The default argument `''` gives `''`. */
  lemma {:induction false} SourceNameOfEmpty()
    ensures GetSourceName("") == ""
  {
    assert !HasExtension("");
    SourceNameWithoutParent("", "");
  }

  // ---------------------------------------------------------------------------------------------
  // Byte units

  /** The units `BF` chooses from, one per power of 1024. */
  const Units: seq<string> := ["B", "KB", "MB", "GB", "TB", "PB", "EB", "ZB", "YB"]

  /** `Math.pow(1024, i)`. */
  function Pow1024(i: nat): (r: nat)
    ensures 1 <= r
  {
    if i == 0 then 1 else 1024 * Pow1024(i - 1)
  }

  /** The loop test `v > min && v < max` for unit `i`. */
  predicate InUnitRange(n: int, i: nat) {
    Pow1024(i) < n < Pow1024(i + 1)
  }

  function Abs(v: int): nat {
    if v < 0 then -v else v
  }

  /** The unit loop of `BF` from index `i` on: the first unit whose range holds `n`, if any. */
  function UnitSearch(n: int, i: nat): (r: Option<nat>)
    requires i <= |Units|
    ensures r.Some? ==> i <= r.value < |Units| && InUnitRange(n, r.value)
    ensures forall j :: i <= j < |Units| && (r.None? || j < r.value) ==> !InUnitRange(n, j)
    decreases |Units| - i
  {
    if i == |Units| then None
    else if Pow1024(i) < n && n < Pow1024(i + 1) then Some(i)
    else UnitSearch(n, i + 1)
  }

  /** What `BF` returns. `Scaled` stands for the text
      `prefix + (magnitude / divisor).toFixed(places) + space + unit`, whose digits are left
      abstract; `Raw` is the number itself, returned when no unit matched. */
  datatype ByteFormat =
    | Zero(text: string)
    | Scaled(prefix: string, magnitude: nat, divisor: nat, places: int, space: string, unit: string)
    | Raw(value: nat)

  /** `BF(v, places, space)` on an integral byte count: `0` is `"0" + space + "B"`; otherwise the
      unit whose range holds `|v|`, signed with `-` exactly when `v` is negative; when no unit's
      range holds `|v|`, the unsigned number `|v|`. */
  function BF(v: int, places: int := 1, space: string := ""): (r: ByteFormat)
    ensures r.Zero? <==> v == 0
    ensures r.Zero? ==> r.text == "0" + space + "B"
    ensures forall i :: 0 <= i < |Units| && InUnitRange(Abs(v), i) ==>
      r == Scaled(if v < 0 then "-" else "", Abs(v), Pow1024(i), places, space, Units[i])
    ensures v != 0 && (forall i :: 0 <= i < |Units| ==> !InUnitRange(Abs(v), i)) ==> r == Raw(Abs(v))
  {
    if v == 0 then Zero("0" + space + "B")
    else
      var prefix := if v < 0 then "-" else "";
      var n := Abs(v);
      match UnitSearch(n, 0)
      case Some(i) =>
        forall j | 0 <= j < |Units| && InUnitRange(n, j) ensures j == i {
          UnitRangeUnique(n, i, j);
        }
        Scaled(prefix, n, Pow1024(i), places, space, Units[i])
      case None => Raw(n)
  }

  /** `BSF(v, places = 1)`: `BF` with a space between number and unit. */
  function BSF(v: int, places: int := 1): (r: ByteFormat)
    ensures r.Zero? ==> r.text == "0 B"
    ensures r.Scaled? ==> r.space == " " && r.unit in Units
    ensures r.Raw? ==> r.value == Abs(v)
  {
    BF(v, places, " ")
  }

  /** The default arguments: one decimal place, and no space for `BF`, so `BF(0)` is `"0B"` and
      `BSF(0)` is `"0 B"`; a count such as 1536 is shown with one decimal place. */
  lemma {:induction false} ByteFormatDefaults()
    ensures BF(0) == Zero("0B")
    ensures BSF(0) == Zero("0 B")
    ensures BF(1536) == Scaled("", 1536, 1024, 1, "", "KB")
    ensures BSF(-1536) == Scaled("-", 1536, 1024, 1, " ", "KB")
  {
    assert InUnitRange(1536, 1);
  }

  /** Each power of 1024 is 1024 times the one before, so a later power is at least 1024 times an
      earlier one. */
  lemma {:induction false} PowMonotone(i: nat, j: nat)
    requires i < j
    ensures Pow1024(i + 1) <= Pow1024(j)
    decreases j
  {
    if i + 1 < j {
      PowMonotone(i, j - 1);
    }
  }

  /** At most one unit's range holds a given count. */
  lemma {:induction false} UnitRangeUnique(n: int, i: nat, j: nat)
    requires InUnitRange(n, i) && InUnitRange(n, j)
    ensures i == j
  {
    if i < j {
      PowMonotone(i, j);
    } else if j < i {
      PowMonotone(j, i);
    }
  }

  /** An exact power of 1024 (including 1) lies in no unit's range. */
  lemma {:induction false} ExactPowerInNoRange(k: nat, i: nat)
    ensures !InUnitRange(Pow1024(k), i)
  {
    if i < k {
      PowMonotone(i, k);
    } else if k < i {
      PowMonotone(k, i);
    }
  }

  /** An exact power of 1024 comes back as the bare number, without the sign of a negative input. */
  lemma {:induction false} BfExactPower(k: nat, places: int, space: string)
    ensures BF(Pow1024(k), places, space) == Raw(Pow1024(k))
    ensures BF(-(Pow1024(k) as int), places, space) == Raw(Pow1024(k))
  {
    forall i | 0 <= i < |Units|
      ensures !InUnitRange(Pow1024(k), i)
    {
      ExactPowerInNoRange(k, i);
    }
  }

  /** A count of at least 1024^9 is past the last unit and comes back as the bare number, without
      the sign of a negative input. */
  lemma {:induction false} BfBeyondLastUnit(v: int, places: int, space: string)
    requires Abs(v) >= Pow1024(|Units|)
    ensures BF(v, places, space) == Raw(Abs(v))
  {
    forall i | 0 <= i < |Units|
      ensures !InUnitRange(Abs(v), i)
    {
      if i + 1 < |Units| {
        PowMonotone(i + 1, |Units|);
      }
    }
  }

  /** The exponent of the largest power of 1024 not above `n`. */
  function FloorLog1024(n: nat): (k: nat)
    requires 1 <= n
    ensures Pow1024(k) <= n < Pow1024(k + 1)
    decreases n
  {
    if n < 1024 then 0
    else
      var k := FloorLog1024(n / 1024);
      assert 1024 * (n / 1024) <= n < 1024 * (n / 1024 + 1);
      assert Pow1024(k + 2) == 1024 * Pow1024(k + 1);
      1 + k
  }

  /** Every count strictly between 1 and 1024^9 that is not a power of 1024 gets a unit, signed
      with `-` exactly when the input is negative. */
  lemma {:induction false} BfScalesBetweenPowers(v: int, places: int, space: string)
    requires 1 <= Abs(v) < Pow1024(|Units|)
    requires forall k: nat :: Abs(v) != Pow1024(k)
    ensures BF(v, places, space).Scaled?
    ensures BF(v, places, space).prefix == (if v < 0 then "-" else "")
    ensures BF(v, places, space).magnitude == Abs(v)
  {
    var n := Abs(v);
    var k := FloorLog1024(n);
    assert Pow1024(k) < n;
    if k >= |Units| {
      if k > |Units| {
        PowMonotone(|Units|, k);
      }
    }
    assert InUnitRange(n, k);
  }

  // ---------------------------------------------------------------------------------------------
  // Byte units with the lower bound included

  /** The unit test with the lower bound included, `v >= min && v < max`, which every power of
      1024 from 1 to 1024^8 needs in order to get a unit. */
  predicate InUnitRangeFrom(n: int, i: nat) {
    Pow1024(i) <= n < Pow1024(i + 1)
  }

  /** The unit loop with the lower bound included. */
  function UnitSearchFrom(n: int, i: nat): (r: Option<nat>)
    requires i <= |Units|
    ensures r.Some? ==> i <= r.value < |Units| && InUnitRangeFrom(n, r.value)
    ensures forall j :: i <= j < |Units| && (r.None? || j < r.value) ==> !InUnitRangeFrom(n, j)
    decreases |Units| - i
  {
    if i == |Units| then None
    else if Pow1024(i) <= n && n < Pow1024(i + 1) then Some(i)
    else UnitSearchFrom(n, i + 1)
  }

  /** `BF` with the lower bound of each unit included: the same results as `BF` except that an
      exact power of 1024 gets its unit. */
  function BfFrom(v: int, places: int, space: string): (r: ByteFormat)
    ensures r.Zero? <==> v == 0
    ensures r.Zero? ==> r.text == "0" + space + "B"
    ensures forall i :: 0 <= i < |Units| && InUnitRangeFrom(Abs(v), i) ==>
      r == Scaled(if v < 0 then "-" else "", Abs(v), Pow1024(i), places, space, Units[i])
    ensures v != 0 && (forall i :: 0 <= i < |Units| ==> !InUnitRangeFrom(Abs(v), i)) ==> r == Raw(Abs(v))
  {
    if v == 0 then Zero("0" + space + "B")
    else
      var prefix := if v < 0 then "-" else "";
      var n := Abs(v);
      match UnitSearchFrom(n, 0)
      case Some(i) =>
        forall j | 0 <= j < |Units| && InUnitRangeFrom(n, j) ensures j == i {
          UnitRangeFromUnique(n, i, j);
        }
        Scaled(prefix, n, Pow1024(i), places, space, Units[i])
      case None => Raw(n)
  }

  /** At most one unit's range holds a given count, with the lower bounds included. */
  lemma {:induction false} UnitRangeFromUnique(n: int, i: nat, j: nat)
    requires InUnitRangeFrom(n, i) && InUnitRangeFrom(n, j)
    ensures i == j
  {
    if i < j {
      PowMonotone(i, j);
    } else if j < i {
      PowMonotone(j, i);
    }
  }

  /** With the lower bounds included, every non-zero count below 1024^9 gets a unit: the one of
      the largest power of 1024 not above it, signed with `-` exactly when the input is negative.
      This covers the powers of 1024 that `BF` returns bare. */
  lemma {:induction false} BfFromScalesEveryCount(v: int, places: int, space: string)
    requires 1 <= Abs(v) < Pow1024(|Units|)
    ensures FloorLog1024(Abs(v)) < |Units|
    ensures BfFrom(v, places, space)
         == Scaled(if v < 0 then "-" else "", Abs(v), Pow1024(FloorLog1024(Abs(v))), places, space,
                   Units[FloorLog1024(Abs(v))])
  {
    var n := Abs(v);
    var k := FloorLog1024(n);
    if k >= |Units| {
      if k > |Units| {
        PowMonotone(|Units|, k);
      }
    }
    assert InUnitRangeFrom(n, k);
  }

  /** The two tests differ only on exact powers of 1024: elsewhere `BfFrom` and `BF` agree. */
  lemma {:induction false} BfFromAgreesOffPowers(v: int, places: int, space: string)
    requires forall k: nat :: Abs(v) != Pow1024(k)
    ensures BfFrom(v, places, space) == BF(v, places, space)
  {
    forall i | 0 <= i < |Units|
      ensures InUnitRangeFrom(Abs(v), i) <==> InUnitRange(Abs(v), i)
    {
      assert Abs(v) != Pow1024(i);
    }
  }
}
