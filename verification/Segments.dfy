/** Entropy-coded segments as byte strings: FF stuffing on the way out; on the way in, the
    data bytes up to the next marker, and where that marker is (section B.1.1.5 of ITU-T T.81). */
module Segments {
  import opened ArithTable

  /** A zero byte follows every FF of the data. */
  function Stuff(s: seq<Byte>): seq<Byte> {
    if s == [] then []
    else if s[0] == 0xFF then [0xFF, 0] + Stuff(s[1..])
    else [s[0]] + Stuff(s[1..])
  }

  lemma {:induction false} StuffConcat(s: seq<Byte>, t: seq<Byte>)
    ensures Stuff(s + t) == Stuff(s) + Stuff(t)
  {
    if s == [] {
      assert s + t == t;
    } else {
      assert (s + t)[1..] == s[1..] + t;
      StuffConcat(s[1..], t);
    }
  }

  lemma StuffByte(s: seq<Byte>, b: Byte)
    ensures Stuff(s + [b]) == if b == 0xFF then Stuff(s) + [b] + [0] else Stuff(s) + [b]
  {
    StuffConcat(s, [b]);
    assert [b][1..] == [];
  }

  /** In a stuffed string every FF is followed by a zero byte. */
  lemma {:induction false} StuffedFF(s: seq<Byte>, i: nat)
    requires i < |Stuff(s)| && Stuff(s)[i] == 0xFF
    ensures i + 1 < |Stuff(s)| && Stuff(s)[i + 1] == 0
  {
    var n := if s[0] == 0xFF then 2 else 1;
    if i >= n {
      StuffedFF(s[1..], i - n);
    }
  }

  /** The first position from p on that does not hold FF. */
  function SkipFF(raw: seq<Byte>, p: nat): (q: nat)
    requires p <= |raw|
    ensures p <= q <= |raw| && (q < |raw| ==> raw[q] != 0xFF)
    decreases |raw| - p
  {
    if p < |raw| && raw[p] == 0xFF then SkipFF(raw, p + 1) else p
  }

  /** The data bytes from p on, up to the next marker or the end of the input. */
  function DataFrom(raw: seq<Byte>, p: nat): seq<Byte>
    requires p <= |raw|
    decreases |raw| - p
  {
    if p == |raw| then []
    else if raw[p] != 0xFF then [raw[p]] + DataFrom(raw, p + 1)
    else
      var q := SkipFF(raw, p + 1);
      if q < |raw| && raw[q] == 0 then [0xFF] + DataFrom(raw, q + 1) else []
  }

  /** The position of the code of the next marker from p on, or the end of the input. */
  function MarkerFrom(raw: seq<Byte>, p: nat): (q: nat)
    requires p <= |raw|
    ensures p <= q <= |raw| && (q < |raw| ==> raw[q] != 0 && raw[q] != 0xFF)
    decreases |raw| - p
  {
    if p == |raw| then p
    else if raw[p] != 0xFF then MarkerFrom(raw, p + 1)
    else
      var q := SkipFF(raw, p + 1);
      if q < |raw| && raw[q] == 0 then MarkerFrom(raw, q + 1) else q
  }

  /** The bytes t stand at position p of raw. */
  ghost predicate At(raw: seq<Byte>, p: nat, t: seq<Byte>) {
    p + |t| <= |raw| && forall j :: p <= j < p + |t| ==> raw[j] == t[j - p]
  }

  lemma AtDrop(raw: seq<Byte>, p: nat, t: seq<Byte>, u: seq<Byte>)
    requires At(raw, p, t + u)
    ensures At(raw, p, t) && At(raw, p + |t|, u)
  {
    forall j | p + |t| <= j < p + |t| + |u|
      ensures raw[j] == u[j - (p + |t|)]
    {
      assert raw[j] == (t + u)[j - p];
    }
  }

  lemma OneByte(b: Byte, s: seq<Byte>, raw: seq<Byte>, p: nat)
    requires b != 0xFF && At(raw, p, [b] + s)
    ensures p < |raw| && DataFrom(raw, p) == [b] + DataFrom(raw, p + 1)
    ensures MarkerFrom(raw, p) == MarkerFrom(raw, p + 1)
  {
    assert raw[p] == ([b] + s)[0];
  }

  lemma StuffedByte(s: seq<Byte>, raw: seq<Byte>, p: nat)
    requires At(raw, p, [0xFF, 0] + s)
    ensures p + 1 < |raw| && DataFrom(raw, p) == [0xFF] + DataFrom(raw, p + 2)
    ensures MarkerFrom(raw, p) == MarkerFrom(raw, p + 2)
  {
    assert raw[p] == ([0xFF, 0] + s)[0];
    assert raw[p + 1] == ([0xFF, 0] + s)[1];
    assert SkipFF(raw, p + 1) == p + 1;
  }

  lemma MarkerHere(code: Byte, raw: seq<Byte>, p: nat)
    requires At(raw, p, [0xFF, code]) && code != 0 && code != 0xFF
    ensures DataFrom(raw, p) == [] && MarkerFrom(raw, p) == p + 1 < |raw| && raw[p + 1] == code
  {
    assert raw[p] == [0xFF, code][0];
    assert raw[p + 1] == [0xFF, code][1];
    assert SkipFF(raw, p + 1) == p + 1;
  }

  lemma StuffHead(s: seq<Byte>, t: seq<Byte>)
    requires s != []
    ensures Stuff(s) + t == (if s[0] == 0xFF then [0xFF, 0] else [s[0]]) + (Stuff(s[1..]) + t)
  {
  }

  /** Unstuffing inverts stuffing: a reader at the start of a stuffed segment that is followed
      by a marker sees exactly its data, and then that marker. */
  lemma {:induction false} Unstuff(s: seq<Byte>, code: Byte, raw: seq<Byte>, p: nat)
    requires At(raw, p, Stuff(s) + [0xFF, code]) && code != 0 && code != 0xFF
    ensures DataFrom(raw, p) == s
    ensures MarkerFrom(raw, p) == p + |Stuff(s)| + 1 < |raw| && raw[MarkerFrom(raw, p)] == code
    decreases |s|
  {
    if s == [] {
      assert Stuff(s) + [0xFF, code] == [0xFF, code];
      MarkerHere(code, raw, p);
    } else {
      var head := if s[0] == 0xFF then [0xFF, 0] else [s[0]];
      var tail := Stuff(s[1..]) + [0xFF, code];
      StuffHead(s, [0xFF, code]);
      AtDrop(raw, p, head, tail);
      Unstuff(s[1..], code, raw, p + |head|);
      if s[0] == 0xFF {
        StuffedByte(tail, raw, p);
      } else {
        OneByte(s[0], tail, raw, p);
      }
    }
  }
}
