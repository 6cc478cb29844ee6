/** The DER reader the RSASSA-PSS decoder stands on: a `CBS` cursor over the
    unread bytes, its "read one element with this tag" primitive and its
    INTEGER-to-int64 conversion. Identifiers are single octets (low tag
    numbers, section 8.1.2.2 of ITU-T X.690); lengths are definite and
    minimal with at most four length octets (sections 8.1.3 and 10.1). */
module Der {
  import opened Arith
  import opened Wrappers

  const TagInteger: Byte := 0x02
  const TagNull: Byte := 0x05
  const TagObject: Byte := 0x06
  const TagSequence: Byte := 0x30

  /** Contents this long or longer need more than four length octets. */
  const LengthLimit: int := 0x1_0000_0000

  /** The identifier octet of `[index]`: context-specific class, constructed. */
  function ContextTag(index: nat): (t: Byte)
    requires index < 31
    ensures t / 32 == 5 && t % 32 == index
  {
    0xa0 + index
  }

  /** An identifier octet in the low-tag-number form. */
  predicate LowTag(t: Byte)
  {
    t % 32 != 31
  }

  /** One parsed element and the bytes after it. */
  datatype Element = Element(tag: Byte, contents: seq<Byte>, rest: seq<Byte>)

  // ---------------------------------------------------------------------
  // Encoding.
  // ---------------------------------------------------------------------

  /** The big-endian bytes of a positive number, without leading zeros. */
  function BeMinimal(n: nat): seq<Byte>
    requires n > 0
    decreases n
  {
    if n < 256 then [n] else BeMinimal(n / 256) + [n % 256]
  }

  /** The DER length octets of n. */
  function EncodeLength(n: nat): (r: seq<Byte>)
    requires n < LengthLimit
    ensures 1 <= |r| <= 5
  {
    if n < 128 then [n]
    else
      BeMinimalLength(n, 4);
      [128 + |BeMinimal(n)|] + BeMinimal(n)
  }

  /** Identifier, length and contents of one element. */
  function Tlv(tag: Byte, contents: seq<Byte>): (r: seq<Byte>)
    requires |contents| < LengthLimit
    ensures |contents| < |r| <= |contents| + 6
  {
    [tag] + EncodeLength(|contents|) + contents
  }

  // ---------------------------------------------------------------------
  // Parsing.
  // ---------------------------------------------------------------------

  /** The length at the front of `t` and the number of octets it takes. The
      short form is one octet below 0x80; the long form 0x80 + k is followed
      by k (1 to 4) big-endian octets, without a leading zero and with a value
      the short form could not hold. */
  function ParseLength(t: seq<Byte>): (r: Option<(nat, nat)>)
    requires t != []
    ensures r.Some? ==> r.value.0 < LengthLimit && 1 <= r.value.1 <= |t|
  {
    if t[0] < 128 then Some((t[0], 1))
    else if t[0] == 128 || t[0] > 132 || |t| < t[0] - 127 then None
    else if t[1] == 0 || BeValue(t[1..t[0] - 127]) < 128 then None
    else
      BeValueShort(t[1..t[0] - 127]);
      Some((BeValue(t[1..t[0] - 127]), t[0] - 127))
  }

  /** The element at the front of `s`, if `s` starts with a well-formed one. */
  function ParseElement(s: seq<Byte>): (r: Option<Element>)
    ensures r.Some? ==> |r.value.contents| < LengthLimit && |r.value.rest| < |s|
  {
    if |s| < 2 || !LowTag(s[0]) then None
    else
      match ParseLength(s[1..])
      case None => None
      case Some((len, n)) =>
        if |s| < 1 + n + len then None
        else Some(Element(s[0], s[1 + n..1 + n + len], s[1 + n + len..]))
  }

  /** Where a cursor stands after reading one element, whatever its tag. */
  function Advance(s: seq<Byte>): seq<Byte>
  {
    if ParseElement(s).Some? then ParseElement(s).value.rest else s
  }

  predicate HasTag(s: seq<Byte>, tag: Byte)
  {
    ParseElement(s).Some? && ParseElement(s).value.tag == tag
  }

  // ---------------------------------------------------------------------
  // Parsing inverts encoding, and nothing else parses.
  // ---------------------------------------------------------------------

  /** An encoded element parses back to its tag and contents. */
  lemma ParseTlv(tag: Byte, contents: seq<Byte>, rest: seq<Byte>)
    requires LowTag(tag) && |contents| < LengthLimit
    ensures ParseElement(Tlv(tag, contents) + rest) == Some(Element(tag, contents, rest))
  {
    var s := Tlv(tag, contents) + rest;
    var len := |contents|;
    var l := EncodeLength(len);
    assert s[1..] == l + contents + rest;
    if len < 128 {
      assert ParseLength(s[1..]) == Some((len as nat, 1 as nat));
    } else {
      BeMinimalValue(len);
      BeMinimalLength(len, 4);
      var b := BeMinimal(len);
      var t := s[1..];
      assert t[0] == 128 + |b|;
      assert t[1..|b| + 1] == b;
      assert ParseLength(t) == Some((len as nat, (|b| + 1) as nat));
    }
    assert s[1 + |l|..1 + |l| + len] == contents;
    assert s[1 + |l| + len..] == rest;
  }

  /** Whatever parses is exactly the encoding of what it parses to: DER leaves
      one way to write each element. */
  lemma ParseElementSound(s: seq<Byte>)
    requires ParseElement(s).Some?
    ensures s == Tlv(ParseElement(s).value.tag, ParseElement(s).value.contents) + ParseElement(s).value.rest
  {
    var e := ParseElement(s).value;
    var t := s[1..];
    var (len, n) := ParseLength(t).value;
    if t[0] >= 128 {
      var b := t[1..n];
      BeMinimalUnique(b);
      assert EncodeLength(len) == [t[0]] + b;
      assert [t[0]] + b == t[..n];
    } else {
      assert EncodeLength(len) == t[..n];
    }
    assert s == [s[0]] + t[..n] + e.contents + e.rest;
  }

  lemma {:induction false} BeMinimalValue(n: nat)
    requires n > 0
    ensures BeMinimal(n) != [] && BeMinimal(n)[0] != 0
    ensures BeValue(BeMinimal(n)) == n
    decreases n
  {
    var b := BeMinimal(n);
    if n < 256 {
      assert b[..0] == [];
    } else {
      BeMinimalValue(n / 256);
      assert b[..|b| - 1] == BeMinimal(n / 256);
    }
  }

  lemma {:induction false} BeMinimalLength(n: nat, k: nat)
    requires 0 < n < Pow(256, k)
    ensures |BeMinimal(n)| <= k
    decreases n
  {
    if n >= 256 {
      var m := Pow(256, k - 1);
      assert n < 256 * m;
      assert n == (n / 256) * 256 + n % 256;
      assert n / 256 < m;
      BeMinimalLength(n / 256, k - 1);
    }
  }

  /** Minimal big-endian bytes are the only ones without a leading zero. */
  lemma {:induction false} BeMinimalUnique(b: seq<Byte>)
    requires b != [] && b[0] != 0
    ensures BeValue(b) > 0 && BeMinimal(BeValue(b)) == b
    decreases |b|
  {
    if |b| == 1 {
      assert b[..0] == [];
    } else {
      var p := b[..|b| - 1];
      BeMinimalUnique(p);
      var v := BeValue(b);
      assert v == BeValue(p) * 256 + b[|b| - 1];
      ModUnique(v, BeValue(p), b[|b| - 1], 256);
      assert b == p + [b[|b| - 1]];
    }
  }

  lemma {:induction false} BeValueBound(b: seq<Byte>)
    ensures BeValue(b) < Pow(256, |b|)
    decreases |b|
  {
    if b != [] {
      var p := b[..|b| - 1];
      BeValueBound(p);
      assert BeValue(b) == BeValue(p) * 256 + b[|b| - 1];
      assert Pow(256, |b|) == 256 * Pow(256, |p|);
    }
  }

  lemma BeValueShort(b: seq<Byte>)
    requires |b| <= 4
    ensures BeValue(b) < LengthLimit
  {
    BeValueBound(b);
    PowMonotone(|b|, 4);
    assert Pow(256, 4) == LengthLimit;
  }

  lemma {:induction false} PowMonotone(i: nat, j: nat)
    requires i <= j
    ensures 1 <= Pow(256, i) <= Pow(256, j)
    decreases j
  {
    if j > i {
      PowMonotone(i, j - 1);
    } else if i > 0 {
      PowMonotone(i - 1, i - 1);
    }
  }

  // ---------------------------------------------------------------------
  // INTEGER contents (section 8.3 of ITU-T X.690).
  // ---------------------------------------------------------------------

  /** The two's-complement value of a big-endian INTEGER body. */
  function IntegerValue(b: seq<Byte>): int
    requires b != []
  {
    if b[0] < 128 then BeValue(b) else BeValue(b) - Pow(256, |b|)
  }

  /** An INTEGER body is non-empty and minimal: its first nine bits are not
      all equal. */
  predicate ValidInteger(b: seq<Byte>)
  {
    b != [] && (|b| >= 2 ==> !(b[0] == 0 && b[1] < 128) && !(b[0] == 255 && b[1] >= 128))
  }

  /** The minimal two's-complement bytes of v. */
  function IntegerBytes(v: int): (r: seq<Byte>)
    ensures r != []
    decreases if v < 0 then -v else v
  {
    if -128 <= v < 128 then [v % 256] else IntegerBytes(v / 256) + [v % 256]
  }

  predicate Int64(v: int)
  {
    -0x8000_0000_0000_0000 <= v < 0x8000_0000_0000_0000
  }

  /** What `CBS_get_asn1_int64` makes of an INTEGER body: minimal, at most
      eight bytes, sign-extended. */
  function Int64Value(b: seq<Byte>): Option<int>
  {
    if ValidInteger(b) && |b| <= 8 then Some(IntegerValue(b)) else None
  }

  /** What `CBS_get_asn1_int64` reads from the front of `s`. */
  function Int64Element(s: seq<Byte>): Option<int>
  {
    if HasTag(s, TagInteger) then Int64Value(ParseElement(s).value.contents) else None
  }

  /** Dropping the last byte divides the value by 256. */
  lemma IntegerValueStep(b: seq<Byte>)
    requires |b| >= 2
    ensures IntegerValue(b) == 256 * IntegerValue(b[..|b| - 1]) + b[|b| - 1]
  {
    var p := b[..|b| - 1];
    assert BeValue(b) == BeValue(p) * 256 + b[|b| - 1];
    assert Pow(256, |b|) == 256 * Pow(256, |p|);
    assert p[0] == b[0];
  }

  lemma IntegerValueByte(x: Byte)
    ensures IntegerValue([x]) == (if x < 128 then x else x - 256)
  {
    assert [x][..0] == [];
    assert BeValue([x]) == BeValue([]) * 256 + x;
    assert Pow(256, 1) == 256;
  }

  /** n bytes hold exactly the values in [-2^(8n-1), 2^(8n-1)). */
  lemma {:induction false} IntegerValueRange(b: seq<Byte>)
    requires b != []
    ensures -128 * Pow(256, |b| - 1) <= IntegerValue(b) < 128 * Pow(256, |b| - 1)
    decreases |b|
  {
    if |b| == 1 {
      IntegerValueByte(b[0]);
    } else {
      var p := b[..|b| - 1];
      IntegerValueRange(p);
      IntegerValueStep(b);
      assert Pow(256, |b| - 1) == 256 * Pow(256, |p| - 1);
    }
  }

  /** Encoding then reading back gives the number, and the encoding is minimal. */
  lemma {:induction false} IntegerBytesRoundTrip(v: int)
    ensures ValidInteger(IntegerBytes(v)) && IntegerValue(IntegerBytes(v)) == v
    decreases if v < 0 then -v else v
  {
    if -128 <= v < 128 {
      IntegerValueByte(v % 256);
    } else {
      var q := v / 256;
      var p := IntegerBytes(q);
      var r := p + [v % 256];
      IntegerBytesRoundTrip(q);
      assert r[..|r| - 1] == p;
      IntegerValueStep(r);
      if |p| == 1 {
        assert -128 <= q < 128;
        assert r[0] == q % 256 && r[1] == v % 256;
      } else {
        assert r[0] == p[0] && r[1] == p[1];
      }
    }
  }

  /** A value in [-2^(8k-1), 2^(8k-1)) takes at most k bytes. */
  lemma {:induction false} IntegerBytesShort(v: int, k: nat)
    requires k >= 1 && -128 * Pow(256, k - 1) <= v < 128 * Pow(256, k - 1)
    ensures |IntegerBytes(v)| <= k
    decreases k
  {
    if !(-128 <= v < 128) && k > 1 {
      assert Pow(256, k - 1) == 256 * Pow(256, k - 2);
      IntegerBytesShort(v / 256, k - 1);
    }
  }

  /** A minimal body of two or more bytes holds a value one byte cannot. */
  lemma {:induction false} ValidIntegerWide(b: seq<Byte>)
    requires ValidInteger(b) && |b| >= 2
    ensures !(-128 <= IntegerValue(b) < 128)
    decreases |b|
  {
    var p := b[..|b| - 1];
    IntegerValueStep(b);
    if |p| == 1 {
      IntegerValueByte(p[0]);
    } else {
      assert p[1] == b[1];
      ValidIntegerWide(p);
    }
  }

  /** The minimal encoding is the only valid one. */
  lemma {:induction false} IntegerBytesUnique(b: seq<Byte>)
    requires ValidInteger(b)
    ensures IntegerBytes(IntegerValue(b)) == b
    decreases |b|
  {
    if |b| == 1 {
      IntegerValueByte(b[0]);
    } else {
      var p := b[..|b| - 1];
      var v := IntegerValue(b);
      assert p[0] == b[0];
      assert |p| >= 2 ==> p[1] == b[1];
      IntegerBytesUnique(p);
      IntegerValueStep(b);
      ValidIntegerWide(b);
      ModUnique(v, IntegerValue(p), b[|b| - 1], 256);
      assert b == p + [b[|b| - 1]];
    }
  }

  /** `CBS_get_asn1_int64` accepts a body exactly when it is the minimal
      encoding of a 64-bit signed value, and returns that value. */
  lemma Int64ValueIff(b: seq<Byte>, v: int)
    ensures Int64Value(b) == Some(v) <==> Int64(v) && b == IntegerBytes(v)
  {
    assert Pow(256, 7) == 0x100_0000_0000_0000;
    if Int64Value(b) == Some(v) {
      IntegerValueRange(b);
      PowMonotone(|b| - 1, 7);
      IntegerBytesUnique(b);
    }
    if Int64(v) && b == IntegerBytes(v) {
      IntegerBytesRoundTrip(v);
      IntegerBytesShort(v, 8);
    }
  }

  /** Every 64-bit signed value has a minimal encoding of at most eight bytes. */
  lemma IntegerBytesInt64(v: int)
    requires Int64(v)
    ensures |IntegerBytes(v)| <= 8
  {
    assert Pow(256, 7) == 0x100_0000_0000_0000;
    IntegerBytesShort(v, 8);
  }

  /** The INTEGER element that `CBS_get_asn1_int64` reads back as v. */
  function EncodeInt64(v: int): seq<Byte>
    requires Int64(v)
  {
    IntegerBytesInt64(v);
    Tlv(TagInteger, IntegerBytes(v))
  }

  // ---------------------------------------------------------------------
  // The cursor.
  // ---------------------------------------------------------------------

  /** A `CBS`: the bytes not yet read. */
  class Cbs {
    var data: seq<Byte>

    constructor (data: seq<Byte>)
      ensures this.data == data
    {
      this.data := data;
    }

    /** `CBS_get_asn1`: reads one element and succeeds when its tag is `tag`,
        handing out its contents. A well-formed element is consumed even when
        its tag differs; a malformed one leaves the cursor where it was. */
    method GetAsn1(tag: Byte) returns (ok: bool, out: Cbs)
      modifies this
      ensures fresh(out)
      ensures ok == HasTag(old(data), tag)
      ensures data == Advance(old(data))
      ensures ok ==> out.data == ParseElement(old(data)).value.contents
    {
      var e := ParseElement(data);
      if e.None? {
        ok := false;
        out := new Cbs([]);
      } else {
        data := e.value.rest;
        ok := e.value.tag == tag;
        out := new Cbs(e.value.contents);
      }
    }

    /** `CBS_get_asn1_int64`: reads an INTEGER element whose minimal body
        fits in 64 bits. */
    method GetAsn1Int64() returns (ok: bool, value: int)
      modifies this
      ensures ok == Int64Element(old(data)).Some?
      ensures ok ==> value == Int64Element(old(data)).value && Int64(value)
      ensures data == Advance(old(data))
    {
      ghost var s := data;
      var got, bytes := GetAsn1(TagInteger);
      if !got {
        return false, 0;
      }
      var v := Int64Value(bytes.data);
      if v.None? {
        return false, 0;
      }
      Int64ValueIff(bytes.data, v.value);
      return true, v.value;
    }
  }
}
