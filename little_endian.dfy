/**
 * Unsigned fields stored least significant byte first, as a little-endian host
 * lays out the members of a C struct, and byte buffers built from such fields.
 */
module LittleEndian {

  type byte = x: int | 0 <= x < 256

  function Pow256(n: nat): (r: nat)
    ensures r >= 1
  {
    if n == 0 then 1 else 256 * Pow256(n - 1)
  }

  /** The number that the bytes `s` encode, least significant byte first. */
  function Value(s: seq<byte>): (r: nat)
    ensures r < Pow256(|s|)
  {
    if s == [] then 0 else s[0] + 256 * Value(s[1..])
  }

  /** The `width` bytes that encode `v`, least significant byte first. */
  function Encode(v: nat, width: nat): (s: seq<byte>)
    requires v < Pow256(width)
    ensures |s| == width
  {
    if width == 0 then [] else [v % 256] + Encode(v / 256, width - 1)
  }

  lemma {:induction false} ValueOfEncode(v: nat, width: nat)
    requires v < Pow256(width)
    ensures Value(Encode(v, width)) == v
  {
    if width > 0 {
      ValueOfEncode(v / 256, width - 1);
      assert Encode(v, width)[1..] == Encode(v / 256, width - 1);
    }
  }

  lemma {:induction false} EncodeOfValue(s: seq<byte>)
    ensures Encode(Value(s), |s|) == s
  {
    if s != [] {
      EncodeOfValue(s[1..]);
      assert Value(s) % 256 == s[0] && Value(s) / 256 == Value(s[1..]);
    }
  }

  /** The bytes `at .. at + width - 1` of a buffer: where one struct member lives. */
  datatype Span = Span(at: nat, width: nat) {
    function End(): nat { at + width }
  }

  predicate Disjoint(s: Span, t: Span) {
    s.End() <= t.at || t.End() <= s.at
  }

  predicate AllDisjoint(spans: seq<Span>) {
    forall i, j :: 0 <= i < j < |spans| ==> Disjoint(spans[i], spans[j])
  }

  /** The unsigned member of width `s.width` stored at offset `s.at` of `b`. */
  function Read(b: seq<byte>, s: Span): (r: nat)
    requires s.End() <= |b|
    ensures r < Pow256(s.width)
    ensures Encode(r, s.width) == b[s.at..s.End()]
  {
    EncodeOfValue(b[s.at..s.End()]);
    Value(b[s.at..s.End()])
  }

  /** Reads at a span depend on the bytes of that span only. */
  lemma ReadLocal(a: seq<byte>, b: seq<byte>, s: Span)
    requires s.End() <= |a| && s.End() <= |b|
    requires forall i :: s.at <= i < s.End() ==> a[i] == b[i]
    ensures Read(a, s) == Read(b, s)
  {
    assert a[s.at..s.End()] == b[s.at..s.End()];
  }

  /** `b` with the member at `s` set to `v` and every other byte unchanged. */
  function Write(b: seq<byte>, s: Span, v: nat): (r: seq<byte>)
    requires s.End() <= |b| && v < Pow256(s.width)
    ensures |r| == |b|
    ensures forall i :: 0 <= i < |b| && !(s.at <= i < s.End()) ==> r[i] == b[i]
    ensures Read(r, s) == v
  {
    var r := b[..s.at] + Encode(v, s.width) + b[s.End()..];
    assert r[s.at..s.End()] == Encode(v, s.width);
    ValueOfEncode(v, s.width);
    r
  }

  predicate FitIn(spans: seq<Span>, size: nat) {
    forall i :: 0 <= i < |spans| ==> spans[i].End() <= size
  }

  predicate ValuesFit(spans: seq<Span>, values: seq<nat>) {
    |values| == |spans| && forall i :: 0 <= i < |spans| ==> values[i] < Pow256(spans[i].width)
  }

  /** Offset `i` lies in none of `spans`. */
  predicate OutsideAll(spans: seq<Span>, i: int) {
    forall k :: 0 <= k < |spans| ==> !(spans[k].at <= i < spans[k].End())
  }

  /** `b` with every member `spans[i]` set to `values[i]`, first to last. */
  function WriteAll(b: seq<byte>, spans: seq<Span>, values: seq<nat>): (r: seq<byte>)
    requires FitIn(spans, |b|) && ValuesFit(spans, values)
    ensures |r| == |b|
    ensures forall i :: 0 <= i < |b| && OutsideAll(spans, i) ==> r[i] == b[i]
    decreases |spans|
  {
    if spans == [] then b
    else
      var b' := Write(b, spans[0], values[0]);
      assert forall i :: 0 <= i < |b| && !(spans[0].at <= i < spans[0].End()) ==> b'[i] == b[i];
      WriteAll(b', spans[1..], values[1..])
  }

  /** After writing members at pairwise disjoint spans, each one reads back as written. */
  lemma {:induction false} ReadWriteAll(b: seq<byte>, spans: seq<Span>, values: seq<nat>, k: nat)
    requires FitIn(spans, |b|) && ValuesFit(spans, values) && AllDisjoint(spans)
    requires k < |spans|
    ensures Read(WriteAll(b, spans, values), spans[k]) == values[k]
    decreases |spans|
  {
    var b' := Write(b, spans[0], values[0]);
    var rest := WriteAll(b', spans[1..], values[1..]);
    assert WriteAll(b, spans, values) == rest;
    if k == 0 {
      forall i | spans[0].at <= i < spans[0].End()
        ensures rest[i] == b'[i]
      {
        forall j | 0 <= j < |spans[1..]|
          ensures !(spans[1..][j].at <= i < spans[1..][j].End())
        {
          assert Disjoint(spans[0], spans[j + 1]);
        }
      }
      ReadLocal(rest, b', spans[0]);
    } else {
      assert AllDisjoint(spans[1..]) by {
        forall i, j | 0 <= i < j < |spans[1..]|
          ensures Disjoint(spans[1..][i], spans[1..][j])
        {
          assert Disjoint(spans[i + 1], spans[j + 1]);
        }
      }
      ReadWriteAll(b', spans[1..], values[1..], k - 1);
    }
  }

  /** Two buffers with the same bytes in every one of `spans`. */
  predicate SameMembers(spans: seq<Span>, a: seq<byte>, b: seq<byte>)
    requires FitIn(spans, |a|) && FitIn(spans, |b|)
  {
    forall k :: 0 <= k < |spans| ==> a[spans[k].at..spans[k].End()] == b[spans[k].at..spans[k].End()]
  }
}
