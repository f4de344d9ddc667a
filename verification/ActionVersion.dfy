/** Action versions (goverify/workflow_currency.go): `v` and one to three numbers of any length. A Go string is
its bytes. */
module ActionVersions {
  import opened ExactWrite
  import opened TextLines
  import opened Decimal

  const DOT: byte := 0x2E
  const V: byte := 0x76
  const ACTION_VERSION_COMPONENTS := 3
  const UINT32 := 0x1_0000_0000

  /** The conversion to uint32. */
  function Uint32(n: nat): (r: nat)
    ensures n < UINT32 ==> r == n
  {
    n % UINT32
  }

  /** A parsed name: where each of its components ends. */
  datatype ActionVersion = ActionVersion(value: bytes, ends: seq<nat>, components: nat)

  /** The zero value, which stands for no version. */
  const NO_VERSION := ActionVersion([], [0, 0, 0], 0)

  function Begin(ends: seq<nat>, i: nat): nat
    requires i <= |ends|
  {
    if i == 0 then 1 else ends[i - 1] + 1
  }

  predicate FramedAt(v: ActionVersion, i: nat)
    requires i < |v.ends|
  {
    Begin(v.ends, i) <= v.ends[i] <= |v.value|
  }

  predicate Framed(v: ActionVersion) {
    && |v.ends| == ACTION_VERSION_COMPONENTS && v.components <= ACTION_VERSION_COMPONENTS
    && forall i | 0 <= i < v.components :: FramedAt(v, i)
  }

  function Component(v: ActionVersion, i: nat): bytes
    requires Framed(v)
  {
    if i >= v.components then [ZERO]
    else
      assert FramedAt(v, i);
      v.value[Begin(v.ends, i)..v.ends[i]]
  }

  // ----- what a version name is -----

  function Parts(name: bytes): seq<bytes> {
    if name == [] then [] else Split(name[1..], DOT)
  }

  predicate ValidVersion(name: bytes) {
    && name != [] && name[0] == V
    && |Parts(name)| <= ACTION_VERSION_COMPONENTS
    && forall i | 0 <= i < |Parts(name)| :: Canonical(Parts(name)[i])
  }

  /** Component `i` as a number; a missing one is zero. */
  function Number(name: bytes, i: nat): nat
    requires ValidVersion(name)
  {
    if i < |Parts(name)| then Value(Parts(name)[i]) else 0
  }

  function Numbers(name: bytes): (r: seq<nat>)
    requires ValidVersion(name)
    ensures |r| == |Parts(name)|
  {
    seq(|Parts(name)|, i requires 0 <= i => Number(name, i))
  }

  function Numerals(ns: seq<nat>): (r: seq<bytes>)
    ensures |r| == |ns|
  {
    seq(|ns|, i requires 0 <= i < |ns| => Digits(ns[i]))
  }

  /** The name of a version with the given components. */
  function Name(ns: seq<nat>): bytes
    requires ns != []
  {
    [V] + Join(Numerals(ns), DOT)
  }

  /** Exactly these names are valid: `v` and one to three canonical numbers between dots. */
  lemma {:induction false} NamesAreValid(ns: seq<nat>)
    requires 1 <= |ns| <= 3
    ensures ValidVersion(Name(ns)) && |Parts(Name(ns))| == |ns|
    ensures forall i | 0 <= i < |ns| :: Number(Name(ns), i) == ns[i]
  {
    var parts := Numerals(ns);
    forall i | 0 <= i < |ns| ensures Canonical(parts[i]) && Value(parts[i]) == ns[i] {
      DigitsAreCanonical(ns[i]);
    }
    SplitJoin(parts, DOT);
    assert Name(ns)[1..] == Join(parts, DOT);
  }

  lemma {:induction false} ValidIsName(name: bytes)
    requires ValidVersion(name)
    ensures 1 <= |Numbers(name)| <= 3 && name == Name(Numbers(name))
  {
    var ns := Numbers(name);
    NumeralsOfName(name);
    JoinSplit(name[1..], DOT);
    assert name == [V] + name[1..];
  }

  lemma {:induction false} NumeralsOfName(name: bytes)
    requires ValidVersion(name)
    ensures Numerals(Numbers(name)) == Parts(name)
  {
    var parts := Parts(name);
    forall i | 0 <= i < |parts| ensures Numerals(Numbers(name))[i] == parts[i] {
      CanonicalIsDigits(parts[i]);
    }
  }

  /** Equal numbers, and equally many of them, make equal names. */
  lemma {:induction false} SameNumbersSameName(a: bytes, b: bytes)
    requires ValidVersion(a) && ValidVersion(b) && |Parts(a)| == |Parts(b)|
    requires forall i | 0 <= i < |Parts(a)| :: Number(a, i) == Number(b, i)
    ensures a == b
  {
    ValidIsName(a);
    ValidIsName(b);
    assert Numbers(a) == Numbers(b);
  }

  /** `v` is what parsing `name` gives. */
  predicate Represents(v: ActionVersion, name: bytes) {
    && ValidVersion(name) && Framed(v)
    && v.value == name && v.components == |Parts(name)|
    && (forall i | 0 <= i < v.components :: Component(v, i) == Parts(name)[i])
    && forall i | v.components <= i < ACTION_VERSION_COMPONENTS :: v.ends[i] == 0
  }

  /** A name has one parsed form. */
  lemma {:induction false} RepresentsOne(v: ActionVersion, w: ActionVersion, name: bytes)
    requires Represents(v, name) && Represents(w, name)
    ensures v == w
  {
    EndOf(v, name, 0); EndOf(w, name, 0);
    EndOf(v, name, 1); EndOf(w, name, 1);
    EndOf(v, name, 2); EndOf(w, name, 2);
    assert v.ends == w.ends;
  }

  lemma {:induction false} EndOf(v: ActionVersion, name: bytes, i: nat)
    requires Represents(v, name) && i < 3
    ensures v.ends[i] == if i < |Parts(name)| then Begin(v.ends, i) + |Parts(name)[i]| else 0
  {
    if i < v.components {
      assert FramedAt(v, i);
      assert |Component(v, i)| == v.ends[i] - Begin(v.ends, i);
    }
  }

  // ----- parsing -----

  method ValidActionVersionComponent(value: bytes) returns (ok: bool)
    ensures ok <==> Canonical(value)
  {
    if value == [] || (|value| > 1 && value[0] == ZERO) {
      return false;
    }
    for i := 0 to |value|
      invariant forall j | 0 <= j < i :: IsDigit(value[j])
    {
      if value[i] < ZERO || value[i] > 0x39 {
        return false;
      }
    }
    return true;
  }

  /** The parts closed so far are where `ends` says. */
  ghost predicate Marks(value: bytes, ends: seq<nat>, done: seq<bytes>) {
    && |done| <= |ends|
    && forall i | 0 <= i < |done| :: MarkedAt(value, ends, done[i], i)
  }

  ghost predicate MarkedAt(value: bytes, ends: seq<nat>, part: bytes, i: nat)
    requires i < |ends|
  {
    Begin(ends, i) <= ends[i] <= |value| && value[Begin(ends, i)..ends[i]] == part
  }

  lemma {:induction false} MarkNext(value: bytes, ends: seq<nat>, done: seq<bytes>, index: nat)
    requires Marks(value, ends, done) && |done| < |ends| && Begin(ends, |done|) <= index <= |value|
    ensures Marks(value, ends[|done| := index], done + [value[Begin(ends, |done|)..index]])
  {
    var more, all := ends[|done| := index], done + [value[Begin(ends, |done|)..index]];
    forall i | 0 <= i < |all| ensures MarkedAt(value, more, all[i], i) {
      if i < |done| {
        assert MarkedAt(value, ends, done[i], i);
      }
    }
  }

  lemma {:induction false} SplitNext(value: bytes, index: nat)
    requires 1 <= index < |value|
    ensures Split(value[1..index + 1], DOT) == AddByte(Split(value[1..index], DOT), value[index], DOT)
  {
    var s := value[1..index + 1];
    assert s[..|s| - 1] == value[1..index] && s[|s| - 1] == value[index];
  }

  lemma {:induction false} SliceNext(value: bytes, start: nat, index: nat)
    requires start <= index < |value|
    ensures value[start..index + 1] == value[start..index] + [value[index]]
  {
  }

  /** A part that is closed, by a dot or by the end, is a part of the whole name. */
  lemma {:induction false} ClosedPart(value: bytes, index: nat, done: seq<bytes>, part: bytes)
    requires 1 <= index <= |value| && (index < |value| ==> value[index] == DOT)
    requires Split(value[1..index], DOT) == done + [part]
    ensures |done| < |Parts(value)| && Parts(value)[|done|] == part
    ensures index == |value| ==> Parts(value) == done + [part]
  {
    if index == |value| {
      assert value[1..index] == value[1..];
    } else {
      SplitNext(value, index);
      var more := (done + [part]) + [[]];
      assert value[1..][..index] == value[1..index + 1];
      ClosedPiecesStay(value[1..], index, DOT);
      assert more[..|more| - 1][|done|] == Parts(value)[..|more| - 1][|done|];
    }
  }

  /** The state of the parser before `index`: the parts closed so far, and an open one from `start` on. */
  ghost predicate Scanned(value: bytes, ends: seq<nat>, done: seq<bytes>, start: nat, index: nat) {
    && 1 <= start <= index <= |value| + 1
    && |done| <= |ends| == ACTION_VERSION_COMPONENTS
    && (forall i | 0 <= i < |done| :: Canonical(done[i]))
    && (forall i | |done| <= i < |ends| :: ends[i] == 0)
    && (if index <= |value| then Split(value[1..index], DOT) == done + [value[start..index]] else Parts(value) == done)
    && (|value| < UINT32 ==> Marks(value, ends, done) && (index <= |value| ==> start == Begin(ends, |done|)))
  }

  lemma {:induction false} ScanPast(value: bytes, ends: seq<nat>, done: seq<bytes>, start: nat, index: nat)
    requires Scanned(value, ends, done, start, index) && index < |value| && value[index] != DOT
    ensures Scanned(value, ends, done, start, index + 1)
  {
    SplitNext(value, index);
    ExtendLast(done, value[start..index], value[index], DOT);
    SliceNext(value, start, index);
  }

  /** A part that is malformed, or is one too many, rules the name out. */
  lemma {:induction false} ScanFails(value: bytes, ends: seq<nat>, done: seq<bytes>, start: nat, index: nat)
    requires Scanned(value, ends, done, start, index)
    requires index <= |value| && (index < |value| ==> value[index] == DOT)
    ensures |done| == |ends| || !Canonical(value[start..index]) ==> !ValidVersion(value)
  {
    ClosedPart(value, index, done, value[start..index]);
  }

  lemma {:induction false} ScanClose(value: bytes, ends: seq<nat>, done: seq<bytes>, start: nat, index: nat)
    requires Scanned(value, ends, done, start, index) && |done| < |ends|
    requires index <= |value| && (index < |value| ==> value[index] == DOT)
    requires Canonical(value[start..index])
    ensures Scanned(value, ends[|done| := Uint32(index)], done + [value[start..index]], index + 1, index + 1)
  {
    ClosedPart(value, index, done, value[start..index]);
    if index < |value| {
      SplitNext(value, index);
      assert value[index + 1..index + 1] == [];
    }
    if |value| < UINT32 {
      MarkNext(value, ends, done, index);
    }
  }

  lemma {:induction false} TooShort(value: bytes)
    requires |value| < 2
    ensures !ValidVersion(value)
  {
    if |value| == 1 {
      assert Parts(value) == [[]];
      assert !Canonical(Parts(value)[0]);
    }
  }

  lemma {:induction false} ScanDone(value: bytes, ends: seq<nat>, done: seq<bytes>, start: nat)
    requires Scanned(value, ends, done, start, |value| + 1) && value != [] && value[0] == V
    ensures ValidVersion(value)
    ensures |value| < UINT32 ==> Represents(ActionVersion(value, ends, |done|), value)
  {
    if |value| < UINT32 {
      var v := ActionVersion(value, ends, |done|);
      forall i | 0 <= i < |done| ensures FramedAt(v, i) && value[Begin(ends, i)..ends[i]] == done[i] {
        assert MarkedAt(value, ends, done[i], i);
      }
    }
  }

  /** The loop fills a fixed array with the ends of the components, each cut to 32 bits. */
  method ParseActionVersion(value: bytes) returns (version: ActionVersion, valid: bool)
    ensures valid <==> ValidVersion(value)
    ensures valid && |value| < UINT32 ==> Represents(version, value)
    ensures !valid ==> version == NO_VERSION
  {
    version, valid := NO_VERSION, false;
    if |value| < 2 || value[0] != V {
      if |value| < 2 { TooShort(value); }
      return;
    }
    var ends := new nat[ACTION_VERSION_COMPONENTS](_ => 0);
    var component: nat, start: nat, index: nat := 0, 1, 1;
    ghost var done: seq<bytes>, marks := [], ends[..];
    assert value[1..1] == [];
    while index <= |value|
      invariant component == |done| && ends[..] == marks
      invariant Scanned(value, marks, done, start, index)
    {
      if index != |value| && value[index] != DOT {
        ScanPast(value, marks, done, start, index);
        index := index + 1;
        continue;
      }
      ScanFails(value, marks, done, start, index);
      if component == ends.Length {
        return;
      }
      var ok := ValidActionVersionComponent(value[start..index]);
      if !ok {
        return;
      }
      ScanClose(value, marks, done, start, index);
      ends[component] := Uint32(index);
      marks := marks[component := Uint32(index)];
      component := component + 1;
      done := done + [value[start..index]];
      start := index + 1;
      index := index + 1;
    }
    ScanDone(value, marks, done, start);
    version, valid := ActionVersion(value, ends[..], component), true;
  }

  // ----- comparing -----

  /** The function `compareVersionComponent`: length first, then lexicographic order. */
  function CompareVersionComponent(left: bytes, right: bytes): int {
    if |left| != |right| then |left| - |right| else Compare(left, right)
  }

  /** On canonical numerals that is the order of the numbers, however long they are. */
  lemma {:induction false} ComponentOrder(left: bytes, right: bytes)
    requires Canonical(left) && Canonical(right)
    ensures SameSign(CompareVersionComponent(left, right), Value(left), Value(right))
  {
    if |left| == |right| {
      SameLengthOrder(left, right);
    } else {
      ValueBounds(left);
      ValueBounds(right);
      if |left| < |right| {
        PowerGrows(|left|, |right| - 1);
      } else {
        PowerGrows(|right|, |left| - 1);
      }
    }
  }

  function CompareFrom(left: ActionVersion, right: ActionVersion, i: nat): int
    requires Framed(left) && Framed(right) && i <= ACTION_VERSION_COMPONENTS
    decreases ACTION_VERSION_COMPONENTS - i
  {
    if i == ACTION_VERSION_COMPONENTS then 0
    else
      var compared := CompareVersionComponent(Component(left, i), Component(right, i));
      if compared != 0 then compared else CompareFrom(left, right, i + 1)
  }

  function CompareActionVersion(left: ActionVersion, right: ActionVersion): int
    requires Framed(left) && Framed(right)
  {
    CompareFrom(left, right, 0)
  }

  /** `a` comes before `b` in the order of their numbers from component `i` on. */
  predicate NumbersBelow(a: bytes, b: bytes, i: nat)
    requires ValidVersion(a) && ValidVersion(b) && i <= 3
    decreases 3 - i
  {
    i < 3 && (Number(a, i) < Number(b, i) || (Number(a, i) == Number(b, i) && NumbersBelow(a, b, i + 1)))
  }

  predicate NumbersEqual(a: bytes, b: bytes)
    requires ValidVersion(a) && ValidVersion(b)
  {
    forall i | 0 <= i < 3 :: Number(a, i) == Number(b, i)
  }

  /** Comparing parsed versions is comparing their numbers, with missing components read as zero. */
  lemma {:induction false} CompareIsNumeric(left: ActionVersion, a: bytes, right: ActionVersion, b: bytes)
    requires Represents(left, a) && Represents(right, b)
    ensures CompareActionVersion(left, right) < 0 <==> NumbersBelow(a, b, 0)
    ensures CompareActionVersion(left, right) > 0 <==> NumbersBelow(b, a, 0)
    ensures CompareActionVersion(left, right) == 0 <==> NumbersEqual(a, b)
  {
    forall i: nat | i < 3 ensures SignAt(left, a, right, b, i) {
      ComponentNumber(left, a, i);
      ComponentNumber(right, b, i);
      ComponentOrder(Component(left, i), Component(right, i));
    }
    CompareFromIsNumeric(left, a, right, b, 0);
  }

  ghost predicate SignAt(left: ActionVersion, a: bytes, right: ActionVersion, b: bytes, i: nat)
    requires Framed(left) && Framed(right) && ValidVersion(a) && ValidVersion(b)
  {
    SameSign(CompareVersionComponent(Component(left, i), Component(right, i)), Number(a, i), Number(b, i))
  }

  lemma {:induction false} CompareFromIsNumeric(left: ActionVersion, a: bytes, right: ActionVersion, b: bytes, i: nat)
    requires Framed(left) && Framed(right) && ValidVersion(a) && ValidVersion(b) && i <= 3
    requires forall j: nat | j < 3 :: SignAt(left, a, right, b, j)
    ensures CompareFrom(left, right, i) < 0 <==> NumbersBelow(a, b, i)
    ensures CompareFrom(left, right, i) > 0 <==> NumbersBelow(b, a, i)
    ensures CompareFrom(left, right, i) == 0 <==> forall j | i <= j < 3 :: Number(a, j) == Number(b, j)
    decreases 3 - i
  {
    if i < 3 {
      var compared := CompareVersionComponent(Component(left, i), Component(right, i));
      var m, n := Number(a, i), Number(b, i);
      assert SignAt(left, a, right, b, i);
      assert compared < 0 <==> m < n;
      assert compared > 0 <==> m > n;
      CompareFromIsNumeric(left, a, right, b, i + 1);
      assert CompareFrom(left, right, i) == if compared != 0 then compared else CompareFrom(left, right, i + 1);
      assert NumbersBelow(a, b, i) <==> m < n || (m == n && NumbersBelow(a, b, i + 1));
      assert NumbersBelow(b, a, i) <==> n < m || (m == n && NumbersBelow(b, a, i + 1));
    }
  }

  lemma {:induction false} ComponentNumber(v: ActionVersion, name: bytes, i: nat)
    requires Represents(v, name)
    ensures Canonical(Component(v, i)) && Value(Component(v, i)) == Number(name, i)
  {
    if i < v.components {
      assert Canonical(Parts(name)[i]);
    } else {
      assert Value([ZERO]) == Value([]) * 10;
    }
  }
}
