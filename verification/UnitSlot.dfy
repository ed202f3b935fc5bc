/** The NUL-padded string slots of include/messages/all_config.hpp. */
module UnitSlot {
  import opened Bytes

  const UNIT_LEN: nat := 8

  /** A string up to its first NUL. */
  function UntilNul(s: seq<byte>): (r: seq<byte>)
    ensures |r| <= |s| && r == s[..|r|]
    ensures 0 !in r
    ensures |r| < |s| ==> s[|r|] == 0
  {
    if s == [] || s[0] == 0 then [] else [s[0]] + UntilNul(s[1..])
  }

  function Zeros(n: nat): (s: seq<byte>)
    ensures |s| == n && forall i | 0 <= i < n :: s[i] == 0
  {
    seq(n, _ => 0)
  }

  /** At most eight bytes of a string. */
  function Truncated(value: seq<byte>): seq<byte> {
    if |value| < UNIT_LEN then value else value[..UNIT_LEN]
  }

  /** The slot of a string: cut to eight bytes, padded with zeros. */
  function Slot(value: seq<byte>): (s: seq<byte>)
    ensures |s| == UNIT_LEN
  {
    Truncated(value) + Zeros(UNIT_LEN - |Truncated(value)|)
  }

  /** Nothing but zeros follows the first NUL. */
  predicate ZeroAfterNul(s: seq<byte>) {
    forall i, j | 0 <= i < j < |s| :: s[i] == 0 ==> s[j] == 0
  }

  /** There is one way to stop at the first NUL. */
  lemma {:induction false} UntilNulUnique(s: seq<byte>, n: nat)
    requires n <= |s| && 0 !in s[..n]
    requires n < |s| ==> s[n] == 0
    ensures UntilNul(s) == s[..n]
  {
    if n > 0 {
      assert s[..n][0] == s[0] && s[1..][..n - 1] == s[..n][1..];
      UntilNulUnique(s[1..], n - 1);
    }
  }

  /** A written string reads back cut at its first NUL or at eight bytes. */
  lemma ReadOfWrite(value: seq<byte>)
    ensures UntilNul(Slot(value)) == UntilNul(Truncated(value))
  {
    var t, s := Truncated(value), Slot(value);
    var n := |UntilNul(t)|;
    assert s[..n] == t[..n];
    UntilNulUnique(s, n);
  }

  /** It is the string itself exactly when it fits and holds no NUL. */
  lemma ReadOfWriteExact(value: seq<byte>)
    ensures UntilNul(Slot(value)) == value <==> |value| <= UNIT_LEN && 0 !in value
  {
    ReadOfWrite(value);
    if |value| <= UNIT_LEN && 0 !in value {
      assert value[..|value|] == value;
      assert Truncated(value) == value;
      UntilNulUnique(value, |value|);
    }
  }

  /** A slot survives reading and writing exactly when it is zero after its first NUL. */
  lemma WriteOfRead(slot: seq<byte>)
    requires |slot| == UNIT_LEN
    ensures Slot(UntilNul(slot)) == slot <==> ZeroAfterNul(slot)
  {
    var r := UntilNul(slot);
    assert Truncated(r) == r;
    var w := Slot(r);
    if ZeroAfterNul(slot) {
      assert forall j | |r| < j < |slot| :: slot[|r|] == 0 ==> slot[j] == 0;
      assert forall j | |r| <= j < |slot| :: slot[j] == 0 == w[j];
    }
    assert ZeroAfterNul(w) by {
      assert forall i | 0 <= i < |r| :: w[i] == r[i];
    }
  }

  /** `read_unit`: count up to a NUL or the end of the slot. */
  method ReadUnit(p: seq<byte>, off: nat) returns (value: seq<byte>)
    requires off + UNIT_LEN <= |p|
    ensures value == UntilNul(p[off..off + UNIT_LEN])
  {
    var len := 0;
    while len < UNIT_LEN && p[off + len] != 0
      invariant 0 <= len <= UNIT_LEN
      invariant 0 !in p[off..off + len]
    {
      len := len + 1;
    }
    value := p[off..off + len];
    assert value == p[off..off + UNIT_LEN][..len];
    UntilNulUnique(p[off..off + UNIT_LEN], len);
  }

  /** `write_unit`: copy the string, then pad the slot with zeros. */
  method WriteUnit(p: array<byte>, off: nat, value: seq<byte>)
    requires off + UNIT_LEN <= p.Length
    modifies p
    ensures p[off..off + UNIT_LEN] == Slot(value)
    ensures forall j | 0 <= j < p.Length && !(off <= j < off + UNIT_LEN) :: p[j] == old(p[j])
  {
    var len := if |value| < UNIT_LEN then |value| else UNIT_LEN;
    for i := 0 to len
      invariant forall j | off <= j < off + i :: p[j] == value[j - off]
      invariant forall j | 0 <= j < p.Length && !(off <= j < off + i) :: p[j] == old(p[j])
    {
      p[off + i] := value[i];
    }
    for i := len to UNIT_LEN
      invariant forall j | off <= j < off + len :: p[j] == value[j - off]
      invariant forall j | off + len <= j < off + i :: p[j] == 0
      invariant forall j | 0 <= j < p.Length && !(off <= j < off + i) :: p[j] == old(p[j])
    {
      p[off + i] := 0;
    }
  }
}
