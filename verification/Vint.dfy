/** Variable-length integers: src/core/vint.cpp. */
module Vint {
  import opened Options
  import opened ByteStrings
  import opened PowersOfTwo

  const MAX_VINT_SIZE: nat := 10

  datatype Vint = Vint(value: nat, len: nat)

  /** The value from group i on. The tenth group may only contribute bit 63. */
  function Groups(d: Bytes, pos: nat, i: nat): Option<Vint>
    decreases MAX_VINT_SIZE - i
  {
    if i >= MAX_VINT_SIZE || pos + i >= |d| then None
    else
      var b := d[pos + i];
      if i == 9 && b % 128 >= 2 then None
      else if b < 128 then Some(Vint(b, i + 1))
      else
        match Groups(d, pos, i + 1)
        case None => None
        case Some(v) => Some(Vint(b % 128 + 128 * v.value, v.len))
  }

  function EncodeVint(v: nat): (e: Bytes)
    ensures |e| >= 1
  {
    if v < 128 then [v] else [v % 128 + 128] + EncodeVint(v / 128)
  }

  /** One more than the largest value that groups i to 9 hold. */
  function Bound(i: nat): (b: nat)
    ensures b >= 2
    decreases MAX_VINT_SIZE - i
  {
    if i >= 9 then 2 else 128 * Bound(i + 1)
  }

  lemma BoundZero()
    ensures Bound(0) == TWO64
  {
    assert Bound(6) == 2 * 128 * 128 * 128;
    assert Bound(3) == 2 * 128 * 128 * 128 * 128 * 128 * 128;
  }

  lemma GroupJoins(b: byte, v: nat, bound: nat)
    requires v < bound
    ensures b % 128 + 128 * v < 128 * bound
  {
  }

  lemma {:induction false} GroupsFacts(d: Bytes, pos: nat, i: nat)
    ensures Groups(d, pos, i).Some? ==>
      && i < Groups(d, pos, i).value.len <= MAX_VINT_SIZE
      && pos + Groups(d, pos, i).value.len <= |d|
      && Groups(d, pos, i).value.value < Bound(i)
    decreases MAX_VINT_SIZE - i
  {
    if i < MAX_VINT_SIZE && pos + i < |d| {
      GroupsFacts(d, pos, i + 1);
      if i < 9 && d[pos + i] >= 128 && Groups(d, pos, i + 1).Some? {
        GroupJoins(d[pos + i], Groups(d, pos, i + 1).value.value, Bound(i + 1));
      }
    }
  }

  /** The integer at `pos`: at most ten bytes, at most 64 bits; padded encodings are accepted. */
  function ReadVint(d: Bytes, pos: nat): (r: Option<Vint>)
    ensures r.Some? ==> 1 <= r.value.len <= MAX_VINT_SIZE && pos + r.value.len <= |d| && r.value.value < TWO64
  {
    GroupsFacts(d, pos, 0);
    BoundZero();
    Groups(d, pos, 0)
  }

  lemma GroupsUnfold(d: Bytes, pos: nat, i: nat)
    requires i <= 9 && pos + i < |d|
    ensures var b := d[pos + i]; var next := Groups(d, pos, i + 1);
      Groups(d, pos, i) == if i == 9 && b % 128 >= 2 then None
        else if b < 128 then Some(Vint(b, i + 1))
        else if next == None then None else Some(Vint(b % 128 + 128 * next.value.value, next.value.len))
  {
  }

  lemma EncodeUnfold(v: nat)
    ensures EncodeVint(v) == if v < 128 then [v] else [v % 128 + 128] + EncodeVint(v / 128)
  {
  }

  lemma BoundUnfold(i: nat, v: nat)
    requires i <= 9 && v < Bound(i)
    ensures i == 9 ==> v < 2
    ensures i < 9 ==> v / 128 < Bound(i + 1)
  {
  }

  lemma {:induction false} GroupsOfEncoding(d: Bytes, pos: nat, i: nat, v: nat)
    requires i <= 9 && v < Bound(i) && HasAt(d, pos + i, EncodeVint(v))
    ensures Groups(d, pos, i) == Some(Vint(v, i + |EncodeVint(v)|))
    decreases v
  {
    hide Groups, EncodeVint, Bound;
    EncodeUnfold(v);
    BoundUnfold(i, v);
    assert d[pos + i] == d[pos + i..pos + i + |EncodeVint(v)|][0];
    GroupsUnfold(d, pos, i);
    if v >= 128 {
      HasAtSplit(d, pos + i, [v % 128 + 128], EncodeVint(v / 128));
      GroupsOfEncoding(d, pos, i + 1, v / 128);
    }
  }

  /** What push_vint writes, read_vint reads back, for every 64-bit value and wherever it stands. */
  lemma VintRoundTrip(d: Bytes, pos: nat, v: nat)
    requires v < TWO64 && HasAt(d, pos, EncodeVint(v))
    ensures ReadVint(d, pos) == Some(Vint(v, |EncodeVint(v)|))
  {
    hide Bound;
    BoundZero();
    GroupsOfEncoding(d, pos, 0, v);
  }

  /** push_vint. */
  method PushVint(vect: Bytes, value: nat) returns (out: Bytes)
    ensures out == vect + EncodeVint(value)
  {
    out := vect;
    var v := value;
    var more := true;
    while more
      invariant more ==> out + EncodeVint(v) == vect + EncodeVint(value)
      invariant !more ==> out == vect + EncodeVint(value)
      decreases more, v
    {
      var b := v % 128;
      ghost var before := out;
      if v / 128 != 0 {
        out := out + [b + 128];
        assert out + EncodeVint(v / 128) == before + EncodeVint(v);
      } else {
        out := out + [b];
        more := false;
      }
      v := v / 128;
    }
  }

  function Pow128(i: nat): nat { if i == 0 then 1 else 128 * Pow128(i - 1) }

  /** Groups below i contributed `value`; the rest is still to come. */
  function Continue(value: nat, i: nat, rest: Option<Vint>): Option<Vint> {
    match rest
    case None => None
    case Some(v) => Some(Vint(value + Pow128(i) * v.value, v.len))
  }

  lemma ContinueStep(d: Bytes, pos: nat, value: nat, i: nat)
    requires i < MAX_VINT_SIZE && pos + i < |d| && !(i == 9 && d[pos + i] % 128 >= 2)
    ensures d[pos + i] >= 128 ==>
      Continue(value, i, Groups(d, pos, i)) ==
          Continue(value + Pow128(i) * (d[pos + i] % 128), i + 1, Groups(d, pos, i + 1))
    ensures d[pos + i] < 128 ==>
      Continue(value, i, Groups(d, pos, i)) == Some(Vint(value + Pow128(i) * (d[pos + i] % 128), i + 1))
  {
    var g, r := d[pos + i] % 128, Groups(d, pos, i + 1);
    if d[pos + i] >= 128 && r.Some? {
      assert Pow128(i) * (g + 128 * r.value.value) == Pow128(i) * g + Pow128(i) * 128 * r.value.value;
    }
  }

  /** read_vint over d[pos..]: on failure bytesRead still counts consumed bytes and never exceeds what is there. */
  method ReadVintLoop(d: Bytes, pos: nat) returns (ok: bool, value: nat, bytesRead: nat)
    requires pos <= |d|
    ensures ok <==> ReadVint(d, pos).Some?
    ensures ok ==> ReadVint(d, pos) == Some(Vint(value, bytesRead))
    ensures bytesRead <= MAX_VINT_SIZE && pos + bytesRead <= |d|
  {
    hide Groups;
    value, bytesRead := 0, 0;
    var i := 0;
    StartContinue(Groups(d, pos, 0));
    while pos + i < |d| && i < MAX_VINT_SIZE
      invariant 0 <= i <= MAX_VINT_SIZE && pos + i <= |d| && bytesRead == i
      invariant ReadVint(d, pos) == Continue(value, i, Groups(d, pos, i))
    {
      var b := d[pos + i];
      bytesRead := bytesRead + 1;
      if i == 9 && b % 128 >= 2 {
        GroupsOverflow(d, pos, i);
        return false, value, bytesRead;
      }
      ContinueStep(d, pos, value, i);
      value := value + Pow128(i) * (b % 128);
      if b < 128 { return true, value, bytesRead; }
      i := i + 1;
    }
    GroupsEnd(d, pos, i);
    ok := false;
  }

  lemma StartContinue(r: Option<Vint>)
    ensures Continue(0, 0, r) == r
  {
  }

  lemma GroupsOverflow(d: Bytes, pos: nat, i: nat)
    requires i == 9 && pos + i < |d| && d[pos + i] % 128 >= 2
    ensures Groups(d, pos, i) == None
  {
  }

  lemma GroupsEnd(d: Bytes, pos: nat, i: nat)
    requires i >= MAX_VINT_SIZE || pos + i >= |d|
    ensures Groups(d, pos, i) == None
  {
  }

  // ----- Reading through a window

  /** `w` is what stands at `pos`, and reaches far enough to decide the integer there. */
  predicate Decides(w: Bytes, d: Bytes, pos: nat) {
    && HasAt(d, pos, w)
    && (|w| >= MAX_VINT_SIZE || pos + |w| == |d| || exists k :: 0 <= k < |w| && w[k] < 128)
  }

  lemma {:induction false} GroupsThroughWindow(w: Bytes, d: Bytes, pos: nat, i: nat)
    requires Decides(w, d, pos) && forall k :: 0 <= k < i && k < |w| ==> w[k] >= 128
    requires i <= |w|
    ensures Groups(w, 0, i) == Groups(d, pos, i)
    decreases MAX_VINT_SIZE - i
  {
    if i < MAX_VINT_SIZE && i < |w| {
      assert d[pos + i] == d[pos..pos + |w|][i];
      if w[i] >= 128 { GroupsThroughWindow(w, d, pos, i + 1); }
    }
  }

  /** Reading from a copied prefix gives what reading in place gives. */
  lemma WindowReads(w: Bytes, d: Bytes, pos: nat)
    requires Decides(w, d, pos)
    ensures ReadVint(w, 0) == ReadVint(d, pos)
  {
    GroupsThroughWindow(w, d, pos, 0);
  }

  lemma GroupsEnds(d: Bytes, pos: nat, i: nat)
    requires Groups(d, pos, i).Some?
    ensures i < Groups(d, pos, i).value.len && pos + Groups(d, pos, i).value.len <= |d|
    ensures d[pos + Groups(d, pos, i).value.len - 1] < 128
  {
    hide Groups;
    GroupsAreVint(d, pos, i);
  }

  lemma VintEnds(d: Bytes, pos: nat)
    requires ReadVint(d, pos).Some?
    ensures d[pos + ReadVint(d, pos).value.len - 1] < 128
  {
    GroupsEnds(d, pos, 0);
  }

  /** An integer is read from its own bytes alone. */
  lemma SameVint(d: Bytes, d': Bytes, pos: nat)
    requires ReadVint(d, pos).Some? && pos + ReadVint(d, pos).value.len <= |d'|
    requires var end := pos + ReadVint(d, pos).value.len; d[pos..end] == d'[pos..end]
    ensures ReadVint(d', pos) == ReadVint(d, pos)
  {
    hide ReadVint;
    var len := ReadVint(d, pos).value.len;
    var w := d[pos..pos + len];
    VintEnds(d, pos);
    assert w[len - 1] == d[pos + len - 1];
    WindowReads(w, d, pos);
    WindowReads(w, d', pos);
  }

  // ----- What an encoding means

  /** Seven bits a byte, the lowest first. */
  function GroupValue(b: Bytes): nat { if b == [] then 0 else b[0] % 128 + 128 * GroupValue(b[1..]) }

  /** At most ten bytes, all but the last marked by their top bit; a tenth byte holds a single bit. */
  predicate IsVint(b: Bytes) {
    && 1 <= |b| <= 10 && b[|b| - 1] < 128 && (forall k :: 0 <= k < |b| - 1 ==> b[k] >= 128)
    && (|b| == 10 ==> b[9] < 2)
  }

  /** The integer at a position is the one encoding that starts there. */
  lemma VintExactly(d: Bytes, pos: nat, len: nat, value: nat)
    ensures ReadVint(d, pos) == Some(Vint(value, len)) <==>
      pos + len <= |d| && IsVint(d[pos..pos + len]) && value == GroupValue(d[pos..pos + len])
  {
    hide Groups, GroupValue;
    if ReadVint(d, pos).Some? && ReadVint(d, pos).value.len == len {
      GroupsAreVint(d, pos, 0);
      GroupsOfVint(d, pos, len, 0);
      var b := d[pos..pos + len];
      assert forall k :: 0 <= k < len - 1 ==> b[k] >= 128;
    } else if pos + len <= |d| && IsVint(d[pos..pos + len]) {
      var b := d[pos..pos + len];
      assert d[pos + len - 1] == b[len - 1];
      forall j | pos <= j < pos + len - 1 ensures d[j] >= 128 { assert d[j] == b[j - pos]; }
      GroupsOfVint(d, pos, len, 0);
    }
  }

  lemma ValueStep(d: Bytes, from: nat, end: nat)
    requires from < end <= |d|
    ensures GroupValue(d[from..end]) == d[from] % 128 + 128 * GroupValue(d[from + 1..end])
  {
    assert d[from..end][1..] == d[from + 1..end];
  }

  lemma {:induction false} GroupsOfVint(d: Bytes, pos: nat, len: nat, i: nat)
    requires i < len <= 10 && pos + len <= |d| && d[pos + len - 1] < 128 && (len == 10 ==> d[pos + 9] < 2)
    requires forall j :: pos <= j < pos + len - 1 ==> d[j] >= 128
    ensures Groups(d, pos, i) == Some(Vint(GroupValue(d[pos + i..pos + len]), len))
    decreases len - i
  {
    hide GroupValue;
    ValueStep(d, pos + i, pos + len);
    if i < len - 1 {
      GroupsOfVint(d, pos, len, i + 1);
    } else {
      NoGroups(d, pos + len);
    }
  }

  lemma NoGroups(d: Bytes, at: nat)
    requires at <= |d|
    ensures GroupValue(d[at..at]) == 0
  {
  }

  lemma {:induction false} GroupsAreVint(d: Bytes, pos: nat, i: nat)
    requires Groups(d, pos, i).Some?
    ensures var len := Groups(d, pos, i).value.len;
      && i < len <= 10 && pos + len <= |d| && d[pos + len - 1] < 128 && (len == 10 ==> d[pos + 9] < 2)
      && (forall j :: pos + i <= j < pos + len - 1 ==> d[j] >= 128)
    decreases MAX_VINT_SIZE - i
  {
    if d[pos + i] >= 128 { GroupsAreVint(d, pos, i + 1); }
  }
}
