/** The RSASSA-PSS parameter decoder: RSASSA-PSS-params (section 3.1 of
    RFC 4055) read through a `CBS` cursor, with the one-way hash identifiers
    of section 2.1 and the MGF1 identifier of section 2.2. Every `RSA_*`
    structure the decoder allocates is a value here (allocation never
    fails), and an out-pointer is an `Option` that stays `None` when the
    code does not write through it. */
module RsassaPss {
  import opened Arith
  import opened Wrappers
  import opened Der

  datatype Nid = Sha1 | Sha224 | Sha256 | Sha384 | Sha512 | Mgf1

  /** `RSA_PSS_SUPPORTED_ALGOR`: an algorithm and the contents of its OID. */
  datatype SupportedAlgor = SupportedAlgor(nid: Nid, oid: seq<Byte>)

  /** `RSA_ALGOR_IDENTIFIER`. */
  datatype AlgorIdentifier = AlgorIdentifier(nid: Nid)

  /** `RSA_MGA_IDENTIFIER`: the mask generation function and its hash. */
  datatype MgaIdentifier = MgaIdentifier(maskGen: AlgorIdentifier, oneWayHash: AlgorIdentifier)

  /** `RSASSA_PSS_PARAMS`. A field that is `None` was absent (its default
      applies); an `RSA_INTEGER` is its int64 value. */
  datatype PssParams = PssParams(
    hashAlgor: Option<AlgorIdentifier>,
    maskGenAlgor: Option<MgaIdentifier>,
    saltLen: Option<int>,
    trailerField: Option<int>)

  /** What `RSASSA_PSS_parse_params` makes of its input: nothing to parse,
      a rejection, or the parameters. */
  datatype ParamsResult = NoParams | Invalid | Params(params: PssParams)

  // ---------------------------------------------------------------------
  // The supported algorithms.
  // ---------------------------------------------------------------------

  /** 1.3.14.3.2.26 */
  const Sha1Func := SupportedAlgor(Sha1, [0x2b, 0x0e, 0x03, 0x02, 0x1a])
  /** 2.16.840.1.101.3.4.2.4 */
  const Sha224Func := SupportedAlgor(Sha224, [0x60, 0x86, 0x48, 0x01, 0x65, 0x03, 0x04, 0x02, 0x04])
  /** 2.16.840.1.101.3.4.2.1 */
  const Sha256Func := SupportedAlgor(Sha256, [0x60, 0x86, 0x48, 0x01, 0x65, 0x03, 0x04, 0x02, 0x01])
  /** 2.16.840.1.101.3.4.2.2 */
  const Sha384Func := SupportedAlgor(Sha384, [0x60, 0x86, 0x48, 0x01, 0x65, 0x03, 0x04, 0x02, 0x02])
  /** 2.16.840.1.101.3.4.2.3 */
  const Sha512Func := SupportedAlgor(Sha512, [0x60, 0x86, 0x48, 0x01, 0x65, 0x03, 0x04, 0x02, 0x03])
  /** 1.2.840.113549.1.1.8 */
  const Mgf1Func := SupportedAlgor(Mgf1, [0x2a, 0x86, 0x48, 0x86, 0xf7, 0x0d, 0x01, 0x01, 0x08])

  /** `rsa_pss_hash_functions`, in the order the decoder tries them. */
  function HashFunctions(): seq<SupportedAlgor>
  {
    [Sha1Func, Sha224Func, Sha256Func, Sha384Func, Sha512Func]
  }

  /** `rsa_pss_mg_functions`. */
  function MgFunctions(): seq<SupportedAlgor>
  {
    [Mgf1Func]
  }

  predicate IsHash(n: Nid)
  {
    n != Mgf1
  }

  /** The OID contents of each algorithm. */
  function OidOf(n: Nid): (oid: seq<Byte>)
    ensures |oid| <= 9
  {
    match n
    case Sha1 => Sha1Func.oid
    case Sha224 => Sha224Func.oid
    case Sha256 => Sha256Func.oid
    case Sha384 => Sha384Func.oid
    case Sha512 => Sha512Func.oid
    case Mgf1 => Mgf1Func.oid
  }

  predicate DistinctOids(table: seq<SupportedAlgor>)
  {
    forall i, j :: 0 <= i < j < |table| ==> table[i].oid != table[j].oid
  }

  /** The algorithm of the first entry of `table` whose OID is `oid`. */
  function Lookup(oid: seq<Byte>, table: seq<SupportedAlgor>): Option<AlgorIdentifier>
  {
    if table == [] then None
    else if table[0].oid == oid then Some(AlgorIdentifier(table[0].nid))
    else Lookup(oid, table[1..])
  }

  /** In a table without repeated OIDs, the lookup finds exactly the entries
      of the table. */
  lemma {:induction false} LookupIff(oid: seq<Byte>, table: seq<SupportedAlgor>, n: Nid)
    requires DistinctOids(table)
    ensures Lookup(oid, table) == Some(AlgorIdentifier(n)) <==> SupportedAlgor(n, oid) in table
  {
    if table != [] {
      if table[0].oid == oid {
        if SupportedAlgor(n, oid) in table {
          var k :| 0 <= k < |table| && table[k] == SupportedAlgor(n, oid);
          assert k == 0;
        }
      } else {
        LookupIff(oid, table[1..], n);
        assert SupportedAlgor(n, oid) in table <==> SupportedAlgor(n, oid) in table[1..] by {
          assert table == [table[0]] + table[1..];
        }
      }
    }
  }

  /** The hash table accepts exactly the OIDs of the five hash functions. */
  lemma HashLookup(oid: seq<Byte>, a: AlgorIdentifier)
    ensures Lookup(oid, HashFunctions()) == Some(a) <==> IsHash(a.nid) && oid == OidOf(a.nid)
  {
    assert DistinctOids(HashFunctions()) by {
      forall i, j | 0 <= i < j < |HashFunctions()|
        ensures HashFunctions()[i].oid != HashFunctions()[j].oid
      {
        assert HashFunctions()[i].oid[|HashFunctions()[i].oid| - 1] != HashFunctions()[j].oid[|HashFunctions()[j].oid| - 1];
      }
    }
    LookupIff(oid, HashFunctions(), a.nid);
  }

  /** The mask generation table accepts exactly the MGF1 OID. */
  lemma MgLookup(oid: seq<Byte>, a: AlgorIdentifier)
    ensures Lookup(oid, MgFunctions()) == Some(a) <==> a.nid == Mgf1 && oid == OidOf(Mgf1)
  {
    LookupIff(oid, MgFunctions(), a.nid);
  }

  // ---------------------------------------------------------------------
  // What each decoder accepts, on the bytes it is given.
  // ---------------------------------------------------------------------

  /** `is_absent_or_null`: nothing, or one NULL with nothing after it. */
  predicate AbsentOrNull(s: seq<Byte>)
  {
    s == [] || (HasTag(s, TagNull) && ParseElement(s).value.contents == [] && ParseElement(s).value.rest == [])
  }

  /** `decode_one_way_hash`: one SEQUENCE holding a supported hash OID and
      absent-or-NULL parameters, and nothing after it. */
  function OneWayHash(s: seq<Byte>): Option<AlgorIdentifier>
  {
    if !HasTag(s, TagSequence) || ParseElement(s).value.rest != [] then None
    else HashAlgorithm(ParseElement(s).value.contents)
  }

  /** The inside of a hash AlgorithmIdentifier. */
  function HashAlgorithm(c: seq<Byte>): Option<AlgorIdentifier>
  {
    if !HasTag(c, TagObject) || !AbsentOrNull(ParseElement(c).value.rest) then None
    else Lookup(ParseElement(c).value.contents, HashFunctions())
  }

  /** `decode_mask_gen`: one SEQUENCE holding the MGF1 OID and a hash
      AlgorithmIdentifier, and nothing after either. */
  function MaskGen(s: seq<Byte>): Option<MgaIdentifier>
  {
    if !HasTag(s, TagSequence) || ParseElement(s).value.rest != [] then None
    else MaskGenAlgorithm(ParseElement(s).value.contents)
  }

  /** The inside of the MGF1 AlgorithmIdentifier. */
  function MaskGenAlgorithm(c: seq<Byte>): Option<MgaIdentifier>
  {
    if !HasTag(c, TagObject) then None
    else
      match (Lookup(ParseElement(c).value.contents, MgFunctions()), OneWayHash(ParseElement(c).value.rest))
      case (Some(mgf1), Some(hash)) => Some(MgaIdentifier(mgf1, hash))
      case _ => None
  }

  /** `parse_rsa_int`: an int64 INTEGER that fills the whole field. */
  function RsaInt(s: seq<Byte>): Option<int>
  {
    if Advance(s) == [] then Int64Element(s) else None
  }

  /** The contents of an `[index]` element at the front of `s`. */
  function FieldOf(s: seq<Byte>, index: nat): (f: Option<seq<Byte>>)
    requires index < 31
    ensures f.Some? ==> |f.value| < LengthLimit
  {
    if HasTag(s, ContextTag(index)) then Some(ParseElement(s).value.contents) else None
  }

  /** The cursor after `get_context_specific_value`: past the `[index]`
      element if there is one, where it was otherwise. */
  function AfterField(s: seq<Byte>, index: nat): seq<Byte>
    requires index < 31
  {
    if HasTag(s, ContextTag(index)) then ParseElement(s).value.rest else s
  }

  /** `decode_pss_hash`: `Some(None)` when `[0]` is absent, `None` when it
      is present and does not decode. */
  function PssHash(s: seq<Byte>): Option<Option<AlgorIdentifier>>
  {
    match FieldOf(s, 0)
    case None => Some(None)
    case Some(c) => if OneWayHash(c).Some? then Some(OneWayHash(c)) else None
  }

  /** `decode_pss_mask_gen`. */
  function PssMaskGen(s: seq<Byte>): Option<Option<MgaIdentifier>>
  {
    match FieldOf(s, 1)
    case None => Some(None)
    case Some(c) => if MaskGen(c).Some? then Some(MaskGen(c)) else None
  }

  /** `decode_pss_salt_len` (index 2) and `decode_pss_trailer_field` (index 3). */
  function PssInt(s: seq<Byte>, index: nat): Option<Option<int>>
    requires index < 31
  {
    match FieldOf(s, index)
    case None => Some(None)
    case Some(c) => if RsaInt(c).Some? then Some(RsaInt(c)) else None
  }

  /** `RSASSA_PSS_parse_params`. */
  function PssParamsOf(s: seq<Byte>): ParamsResult
  {
    if s == [] then NoParams
    else if !HasTag(s, TagSequence) || ParseElement(s).value.rest != [] then Invalid
    else PssFields(ParseElement(s).value.contents)
  }

  /** The four optional fields, in order, and nothing after them. */
  function PssFields(c0: seq<Byte>): ParamsResult
  {
    var c1 := AfterField(c0, 0);
    var c2 := AfterField(c1, 1);
    var c3 := AfterField(c2, 2);
    match (PssHash(c0), PssMaskGen(c1), PssInt(c2, 2), PssInt(c3, 3))
    case (Some(hash), Some(maskGen), Some(saltLen), Some(trailerField)) =>
      if AfterField(c3, 3) == [] then Params(PssParams(hash, maskGen, saltLen, trailerField)) else Invalid
    case _ => Invalid
  }

  // ---------------------------------------------------------------------
  // The decoders, advancing a cursor in place.
  // ---------------------------------------------------------------------

  /** `parse_oid`: the algorithm of the table entry whose OID equals the
      cursor's bytes in length and content. */
  method ParseOid(oid: Cbs, table: seq<SupportedAlgor>) returns (ok: bool, out: Option<AlgorIdentifier>)
    ensures out == Lookup(oid.data, table)
    ensures ok == out.Some?
  {
    var i := 0;
    while i < |table|
      invariant 0 <= i <= |table|
      invariant Lookup(oid.data, table) == Lookup(oid.data, table[i..])
    {
      if |oid.data| == |table[i].oid| && oid.data == table[i].oid {
        return true, Some(AlgorIdentifier(table[i].nid));
      }
      assert table[i..][1..] == table[i + 1..];
      i := i + 1;
    }
    return false, None;
  }

  method IsAbsentOrNull(params: Cbs) returns (b: bool)
    modifies params
    ensures b == AbsentOrNull(old(params.data))
    ensures params.data == Advance(old(params.data))
  {
    if |params.data| == 0 {
      return true;
    }
    var got, nullContents := params.GetAsn1(TagNull);
    b := got && |nullContents.data| == 0 && |params.data| == 0;
  }

  method DecodeOneWayHash(cbs: Cbs) returns (ok: bool, hashAlgor: Option<AlgorIdentifier>)
    modifies cbs
    ensures hashAlgor == OneWayHash(old(cbs.data))
    ensures ok == hashAlgor.Some?
    ensures cbs.data == Advance(old(cbs.data))
  {
    ok, hashAlgor := false, None;
    var gotSeq, sequence := cbs.GetAsn1(TagSequence);
    if !gotSeq || |cbs.data| != 0 {
      return;
    }
    var gotOid, oid := sequence.GetAsn1(TagObject);
    if !gotOid {
      return;
    }
    var absent := IsAbsentOrNull(sequence);
    if !absent {
      return;
    }
    ok, hashAlgor := ParseOid(oid, HashFunctions());
  }

  method DecodeMaskGen(cbs: Cbs) returns (ok: bool, mga: Option<MgaIdentifier>)
    modifies cbs
    ensures mga == MaskGen(old(cbs.data))
    ensures ok == mga.Some?
    ensures cbs.data == Advance(old(cbs.data))
  {
    ok, mga := false, None;
    var gotSeq, sequence := cbs.GetAsn1(TagSequence);
    if !gotSeq || |cbs.data| != 0 {
      return;
    }
    ghost var c := sequence.data;
    assert MaskGen(old(cbs.data)) == MaskGenAlgorithm(c);
    var gotMgf1Oid, mgf1Oid := sequence.GetAsn1(TagObject);
    if !gotMgf1Oid {
      return;
    }
    ghost var h := sequence.data;
    var gotHashSeq, hashSeq := sequence.GetAsn1(TagSequence);
    if !gotHashSeq || |sequence.data| != 0 {
      assert OneWayHash(h).None?;
      return;
    }
    assert OneWayHash(h) == HashAlgorithm(hashSeq.data);
    var gotHashOid, hashOid := hashSeq.GetAsn1(TagObject);
    if !gotHashOid {
      return;
    }
    var absent := IsAbsentOrNull(hashSeq);
    if !absent {
      return;
    }
    var okMgf1, mgf1 := ParseOid(mgf1Oid, MgFunctions());
    if !okMgf1 {
      return;
    }
    var okHash, hashAlgor := ParseOid(hashOid, HashFunctions());
    if !okHash {
      return;
    }
    mga := Some(MgaIdentifier(mgf1.value, hashAlgor.value));
    ok := true;
  }

  /** `get_context_specific_value`: reads an `[index]` element, and on
      failure puts the cursor back where it was. */
  method GetContextSpecificValue(sequence: Cbs, index: nat) returns (found: bool, out: Cbs)
    requires index < 31
    modifies sequence
    ensures fresh(out)
    ensures found == FieldOf(old(sequence.data), index).Some?
    ensures found ==> out.data == FieldOf(old(sequence.data), index).value
    ensures sequence.data == AfterField(old(sequence.data), index)
    ensures !found ==> sequence.data == old(sequence.data)
  {
    var saved := sequence.data;
    found, out := sequence.GetAsn1(ContextTag(index));
    if !found {
      sequence.data := saved;
    }
  }

  method DecodePssHash(sequence: Cbs) returns (ok: bool, hashAlgor: Option<AlgorIdentifier>)
    modifies sequence
    ensures ok == PssHash(old(sequence.data)).Some?
    ensures hashAlgor == (if ok then PssHash(old(sequence.data)).value else None)
    ensures sequence.data == AfterField(old(sequence.data), 0)
  {
    var found, cs := GetContextSpecificValue(sequence, 0);
    if !found {
      return true, None;
    }
    ok, hashAlgor := DecodeOneWayHash(cs);
  }

  method DecodePssMaskGen(sequence: Cbs) returns (ok: bool, mga: Option<MgaIdentifier>)
    modifies sequence
    ensures ok == PssMaskGen(old(sequence.data)).Some?
    ensures mga == (if ok then PssMaskGen(old(sequence.data)).value else None)
    ensures sequence.data == AfterField(old(sequence.data), 1)
  {
    var found, cs := GetContextSpecificValue(sequence, 1);
    if !found {
      return true, None;
    }
    ok, mga := DecodeMaskGen(cs);
  }

  method ParseRsaInt(cbs: Cbs) returns (ok: bool, rsaInt: Option<int>)
    modifies cbs
    ensures rsaInt == RsaInt(old(cbs.data))
    ensures ok == rsaInt.Some?
    ensures cbs.data == Advance(old(cbs.data))
  {
    var got, value := cbs.GetAsn1Int64();
    if got && |cbs.data| == 0 {
      return true, Some(value);
    }
    return false, None;
  }

  method DecodePssSaltLen(sequence: Cbs) returns (ok: bool, saltLen: Option<int>)
    modifies sequence
    ensures ok == PssInt(old(sequence.data), 2).Some?
    ensures saltLen == (if ok then PssInt(old(sequence.data), 2).value else None)
    ensures sequence.data == AfterField(old(sequence.data), 2)
  {
    var found, cs := GetContextSpecificValue(sequence, 2);
    if !found {
      return true, None;
    }
    ok, saltLen := ParseRsaInt(cs);
  }

  method DecodePssTrailerField(sequence: Cbs) returns (ok: bool, trailerField: Option<int>)
    modifies sequence
    ensures ok == PssInt(old(sequence.data), 3).Some?
    ensures trailerField == (if ok then PssInt(old(sequence.data), 3).value else None)
    ensures sequence.data == AfterField(old(sequence.data), 3)
  {
    var found, cs := GetContextSpecificValue(sequence, 3);
    if !found {
      return true, None;
    }
    ok, trailerField := ParseRsaInt(cs);
  }

  /** `RSASSA_PSS_parse_params`: succeeds without writing on empty input;
      otherwise writes the parameters exactly when it succeeds. */
  method ParseParams(params: Cbs) returns (ok: bool, pssParams: Option<PssParams>)
    modifies params
    ensures ok == !PssParamsOf(old(params.data)).Invalid?
    ensures pssParams == (if PssParamsOf(old(params.data)).Params? then Some(PssParamsOf(old(params.data)).params) else None)
    ensures params.data == Advance(old(params.data))
  {
    if |params.data| == 0 {
      return true, None;
    }
    ok, pssParams := false, None;
    var gotSeq, sequence := params.GetAsn1(TagSequence);
    if !gotSeq || |params.data| != 0 {
      return;
    }
    var okHash, hashAlgor := DecodePssHash(sequence);
    if !okHash {
      return;
    }
    var okMaskGen, maskGenAlgor := DecodePssMaskGen(sequence);
    if !okMaskGen {
      return;
    }
    var okSaltLen, saltLen := DecodePssSaltLen(sequence);
    if !okSaltLen {
      return;
    }
    var okTrailer, trailerField := DecodePssTrailerField(sequence);
    if !okTrailer || |sequence.data| != 0 {
      return;
    }
    ok, pssParams := true, Some(PssParams(hashAlgor, maskGenAlgor, saltLen, trailerField));
  }

  // ---------------------------------------------------------------------
  // What the decoders accept, as encodings.
  // ---------------------------------------------------------------------

  /** The DER NULL. */
  const NullParams: seq<Byte> := [0x05, 0x00]

  /** A hash AlgorithmIdentifier: the OID, then NULL or nothing. */
  function HashId(n: Nid, withNull: bool): seq<Byte>
  {
    Tlv(TagSequence, Tlv(TagObject, OidOf(n)) + (if withNull then NullParams else []))
  }

  /** The MGF1 AlgorithmIdentifier with hash `n`. */
  function MgfId(n: Nid, withNull: bool): seq<Byte>
  {
    Tlv(TagSequence, Tlv(TagObject, OidOf(Mgf1)) + HashId(n, withNull))
  }

  /** Absent or NULL parameters are the two byte strings section 2.1 of
      RFC 4055 allows, and nothing else. */
  lemma AbsentOrNullIff(s: seq<Byte>)
    ensures AbsentOrNull(s) <==> s == [] || s == NullParams
  {
    assert EncodeLength(0) == [0];
    assert NullParams == Tlv(TagNull, []) + [];
    ParseTlv(TagNull, [], []);
    if s != [] && AbsentOrNull(s) {
      ParseElementSound(s);
    }
  }

  /** `decode_one_way_hash` accepts exactly the identifiers of the five
      supported hashes, with NULL or absent parameters. */
  lemma OneWayHashIff(s: seq<Byte>, a: AlgorIdentifier)
    ensures OneWayHash(s) == Some(a) <==> IsHash(a.nid) && (s == HashId(a.nid, false) || s == HashId(a.nid, true))
  {
    if OneWayHash(s) == Some(a) {
      var e := ParseElement(s).value;
      ParseElementSound(s);
      var o := ParseElement(e.contents).value;
      ParseElementSound(e.contents);
      AbsentOrNullIff(o.rest);
      HashLookup(o.contents, a);
      assert s == HashId(a.nid, o.rest == NullParams);
    }
    if IsHash(a.nid) && (s == HashId(a.nid, false) || s == HashId(a.nid, true)) {
      var params := if s == HashId(a.nid, true) then NullParams else [];
      var inner := Tlv(TagObject, OidOf(a.nid)) + params;
      assert s == Tlv(TagSequence, inner) + [];
      ParseTlv(TagSequence, inner, []);
      ParseTlv(TagObject, OidOf(a.nid), params);
      AbsentOrNullIff(params);
      HashLookup(OidOf(a.nid), a);
    }
  }

  /** `decode_mask_gen` accepts exactly MGF1 over one of the five supported
      hashes, with NULL or absent hash parameters. */
  lemma MaskGenIff(s: seq<Byte>, m: MgaIdentifier)
    ensures MaskGen(s) == Some(m) <==>
      m.maskGen == AlgorIdentifier(Mgf1) && IsHash(m.oneWayHash.nid) &&
      (s == MgfId(m.oneWayHash.nid, false) || s == MgfId(m.oneWayHash.nid, true))
  {
    if MaskGen(s) == Some(m) {
      MaskGenSound(s, m);
    }
    var n := m.oneWayHash.nid;
    if m.maskGen == AlgorIdentifier(Mgf1) && IsHash(n) && (s == MgfId(n, false) || s == MgfId(n, true)) {
      MaskGenComplete(n, s == MgfId(n, true));
    }
  }

  lemma MaskGenSound(s: seq<Byte>, m: MgaIdentifier)
    requires MaskGen(s) == Some(m)
    ensures m.maskGen == AlgorIdentifier(Mgf1) && IsHash(m.oneWayHash.nid)
    ensures s == MgfId(m.oneWayHash.nid, false) || s == MgfId(m.oneWayHash.nid, true)
  {
    var e := ParseElement(s).value;
    var o := ParseElement(e.contents).value;
    MaskGenParts(s, m);
    MgLookup(o.contents, m.maskGen);
    OneWayHashIff(o.rest, m.oneWayHash);
    Nested(s);
  }

  /** What `MaskGen` checks, one element at a time. */
  lemma MaskGenParts(s: seq<Byte>, m: MgaIdentifier)
    requires MaskGen(s) == Some(m)
    ensures HasTag(s, TagSequence) && ParseElement(s).value.rest == []
    ensures HasTag(ParseElement(s).value.contents, TagObject)
    ensures Lookup(ParseElement(ParseElement(s).value.contents).value.contents, MgFunctions()) == Some(m.maskGen)
    ensures OneWayHash(ParseElement(ParseElement(s).value.contents).value.rest) == Some(m.oneWayHash)
  {
  }

  /** An element that fills `s` and whose contents start with an element. */
  lemma Nested(s: seq<Byte>)
    requires ParseElement(s).Some? && ParseElement(s).value.rest == []
    requires ParseElement(ParseElement(s).value.contents).Some?
    ensures ParseElement(s).value.contents ==
      Tlv(ParseElement(ParseElement(s).value.contents).value.tag, ParseElement(ParseElement(s).value.contents).value.contents) +
      ParseElement(ParseElement(s).value.contents).value.rest
    ensures s == Tlv(ParseElement(s).value.tag, ParseElement(s).value.contents)
  {
    var e := ParseElement(s).value;
    ParseElementSound(s);
    ParseElementSound(e.contents);
    assert s == Tlv(e.tag, e.contents) + [];
  }

  lemma MaskGenComplete(n: Nid, withNull: bool)
    requires IsHash(n)
    ensures MaskGen(MgfId(n, withNull)) == Some(MgaIdentifier(AlgorIdentifier(Mgf1), AlgorIdentifier(n)))
  {
    var hashId := HashId(n, withNull);
    var inner := Tlv(TagObject, OidOf(Mgf1)) + hashId;
    assert MgfId(n, withNull) == Tlv(TagSequence, inner) + [];
    ParseTlv(TagSequence, inner, []);
    ParseTlv(TagObject, OidOf(Mgf1), hashId);
    MgLookup(OidOf(Mgf1), AlgorIdentifier(Mgf1));
    OneWayHashIff(hashId, AlgorIdentifier(n));
  }

  /** `parse_rsa_int` accepts exactly the minimal INTEGER encoding of a
      64-bit signed value, with nothing after it. */
  lemma RsaIntIff(s: seq<Byte>, v: int)
    ensures RsaInt(s) == Some(v) <==> Int64(v) && s == EncodeInt64(v)
  {
    if RsaInt(s) == Some(v) {
      var e := ParseElement(s).value;
      ParseElementSound(s);
      Int64ValueIff(e.contents, v);
    }
    if Int64(v) && s == EncodeInt64(v) {
      IntegerBytesInt64(v);
      assert s == Tlv(TagInteger, IntegerBytes(v)) + [];
      ParseTlv(TagInteger, IntegerBytes(v), []);
      Int64ValueIff(IntegerBytes(v), v);
    }
  }

  // ---------------------------------------------------------------------
  // RSASSA-PSS-params as an encoding.
  // ---------------------------------------------------------------------

  /** An optional `[index]` field: nothing, or the element around `f`. */
  function FieldBytes(index: nat, f: Option<seq<Byte>>): seq<Byte>
    requires index < 31 && (f.Some? ==> |f.value| < LengthLimit)
  {
    if f.None? then [] else Tlv(ContextTag(index), f.value)
  }

  predicate FieldsBounded(fs: seq<Option<seq<Byte>>>)
  {
    forall k :: 0 <= k < |fs| && fs[k].Some? ==> |fs[k].value| < LengthLimit
  }

  /** Optional fields numbered `start`, `start + 1`, ..., one after another. */
  function Fields(fs: seq<Option<seq<Byte>>>, start: nat): seq<Byte>
    requires FieldsBounded(fs) && start + |fs| <= 31
    decreases |fs|
  {
    if fs == [] then [] else FieldBytes(start, fs[0]) + Fields(fs[1..], start + 1)
  }

  predicate HashFieldDecodes(f: Option<seq<Byte>>, hash: Option<AlgorIdentifier>)
  {
    if f.None? then hash.None? else hash.Some? && OneWayHash(f.value) == hash
  }

  predicate MaskGenFieldDecodes(f: Option<seq<Byte>>, mga: Option<MgaIdentifier>)
  {
    if f.None? then mga.None? else mga.Some? && MaskGen(f.value) == mga
  }

  predicate IntFieldDecodes(f: Option<seq<Byte>>, value: Option<int>)
  {
    if f.None? then value.None? else value.Some? && RsaInt(f.value) == value
  }

  /** `s` is a SEQUENCE of the four optional fields `fs`, in order and
      nothing else, and they decode to `p`. */
  predicate EncodesParams(s: seq<Byte>, p: PssParams, fs: seq<Option<seq<Byte>>>)
  {
    |fs| == 4 && FieldsBounded(fs) && |Fields(fs, 0)| < LengthLimit &&
    s == Tlv(TagSequence, Fields(fs, 0)) &&
    HashFieldDecodes(fs[0], p.hashAlgor) && MaskGenFieldDecodes(fs[1], p.maskGenAlgor) &&
    IntFieldDecodes(fs[2], p.saltLen) && IntFieldDecodes(fs[3], p.trailerField)
  }

  /** Fields numbered from `start` on never begin with an earlier tag. */
  lemma {:induction false} FieldsNotTag(fs: seq<Option<seq<Byte>>>, start: nat, i: nat)
    requires FieldsBounded(fs) && start + |fs| <= 31 && i < start
    ensures !HasTag(Fields(fs, start), ContextTag(i))
    decreases |fs|
  {
    if fs != [] {
      if fs[0].Some? {
        ParseTlv(ContextTag(start), fs[0].value, Fields(fs[1..], start + 1));
      } else {
        assert Fields(fs, start) == Fields(fs[1..], start + 1);
        FieldsNotTag(fs[1..], start + 1, i);
      }
    }
  }

  /** Reading field `index` in front of bytes that do not start with it. */
  lemma FieldRead(index: nat, f: Option<seq<Byte>>, more: seq<Byte>)
    requires index < 31 && (f.Some? ==> |f.value| < LengthLimit)
    requires f.None? ==> !HasTag(more, ContextTag(index))
    ensures FieldOf(FieldBytes(index, f) + more, index) == f
    ensures AfterField(FieldBytes(index, f) + more, index) == more
  {
    if f.Some? {
      ParseTlv(ContextTag(index), f.value, more);
    } else {
      assert FieldBytes(index, f) + more == more;
    }
  }

  /** What the field reader takes and leaves make up its input. */
  lemma FieldSplit(s: seq<Byte>, index: nat)
    requires index < 31
    ensures s == FieldBytes(index, FieldOf(s, index)) + AfterField(s, index)
  {
    if HasTag(s, ContextTag(index)) {
      ParseElementSound(s);
    }
  }

  /** Four fields in order. */
  lemma FourFields(fs: seq<Option<seq<Byte>>>)
    requires |fs| == 4 && FieldsBounded(fs)
    ensures Fields(fs, 0) == FieldBytes(0, fs[0]) + Fields(fs[1..], 1)
    ensures Fields(fs[1..], 1) == FieldBytes(1, fs[1]) + Fields(fs[2..], 2)
    ensures Fields(fs[2..], 2) == FieldBytes(2, fs[2]) + Fields(fs[3..], 3)
    ensures Fields(fs[3..], 3) == FieldBytes(3, fs[3])
  {
    assert fs[1..][1..] == fs[2..];
    assert fs[2..][1..] == fs[3..];
    assert fs[3..][1..] == [];
    assert FieldBytes(3, fs[3]) + [] == FieldBytes(3, fs[3]);
  }

  /** The fields read one after another from `c0` decode to `p`, and
      nothing follows them. */
  predicate FieldsDecode(c0: seq<Byte>, p: PssParams)
  {
    var c1 := AfterField(c0, 0);
    var c2 := AfterField(c1, 1);
    var c3 := AfterField(c2, 2);
    PssHash(c0) == Some(p.hashAlgor) && PssMaskGen(c1) == Some(p.maskGenAlgor) &&
    PssInt(c2, 2) == Some(p.saltLen) && PssInt(c3, 3) == Some(p.trailerField) &&
    AfterField(c3, 3) == []
  }

  lemma PssFieldsIff(c0: seq<Byte>, p: PssParams)
    ensures PssFields(c0) == Params(p) <==> FieldsDecode(c0, p)
  {
  }

  /** `decode_pss_hash` gives `h` exactly when field [0] is absent and `h`
      is `None`, or decodes to `h`. */
  lemma PssHashIff(c: seq<Byte>, h: Option<AlgorIdentifier>)
    ensures PssHash(c) == Some(h) <==> HashFieldDecodes(FieldOf(c, 0), h)
  {
  }

  lemma PssMaskGenIff(c: seq<Byte>, m: Option<MgaIdentifier>)
    ensures PssMaskGen(c) == Some(m) <==> MaskGenFieldDecodes(FieldOf(c, 1), m)
  {
  }

  lemma PssIntIff(c: seq<Byte>, index: nat, v: Option<int>)
    requires index < 31
    ensures PssInt(c, index) == Some(v) <==> IntFieldDecodes(FieldOf(c, index), v)
  {
  }

  /** Reading four fields in order from their concatenation gives them back
      one by one, and leaves nothing. */
  lemma FieldsLayout(fs: seq<Option<seq<Byte>>>)
    requires |fs| == 4 && FieldsBounded(fs)
    ensures FieldOf(Fields(fs, 0), 0) == fs[0] && AfterField(Fields(fs, 0), 0) == Fields(fs[1..], 1)
    ensures FieldOf(Fields(fs[1..], 1), 1) == fs[1] && AfterField(Fields(fs[1..], 1), 1) == Fields(fs[2..], 2)
    ensures FieldOf(Fields(fs[2..], 2), 2) == fs[2] && AfterField(Fields(fs[2..], 2), 2) == Fields(fs[3..], 3)
    ensures FieldOf(Fields(fs[3..], 3), 3) == fs[3] && AfterField(Fields(fs[3..], 3), 3) == []
  {
    FourFields(fs);
    var c1, c2, c3 := Fields(fs[1..], 1), Fields(fs[2..], 2), Fields(fs[3..], 3);
    FieldsNotTag(fs[1..], 1, 0);
    FieldRead(0, fs[0], c1);
    FieldsNotTag(fs[2..], 2, 1);
    FieldRead(1, fs[1], c2);
    FieldsNotTag(fs[3..], 3, 2);
    FieldRead(2, fs[2], c3);
    assert c3 == FieldBytes(3, fs[3]) + [];
    FieldRead(3, fs[3], []);
  }

  /** Bytes the four field reads consume entirely are the concatenation of
      the fields they read. */
  lemma FieldsCover(c0: seq<Byte>)
    requires AfterField(AfterField(AfterField(AfterField(c0, 0), 1), 2), 3) == []
    ensures FieldsBounded(FieldsRead(c0))
    ensures Fields(FieldsRead(c0), 0) == c0
  {
    var c1 := AfterField(c0, 0);
    var c2 := AfterField(c1, 1);
    var c3 := AfterField(c2, 2);
    FieldSplit(c0, 0);
    FieldSplit(c1, 1);
    FieldSplit(c2, 2);
    FieldSplit(c3, 3);
    var fs := FieldsRead(c0);
    FourFields(fs);
  }

  /** The four fields as the reads find them. */
  function FieldsRead(c0: seq<Byte>): (fs: seq<Option<seq<Byte>>>)
    ensures |fs| == 4
  {
    var c1 := AfterField(c0, 0);
    var c2 := AfterField(c1, 1);
    var c3 := AfterField(c2, 2);
    [FieldOf(c0, 0), FieldOf(c1, 1), FieldOf(c2, 2), FieldOf(c3, 3)]
  }

  /** Every SEQUENCE of the four optional fields, in order, that decode is
      accepted, with the values they decode to. */
  lemma ParamsComplete(s: seq<Byte>, p: PssParams, fs: seq<Option<seq<Byte>>>)
    requires EncodesParams(s, p, fs)
    ensures PssParamsOf(s) == Params(p)
  {
    var c0 := Fields(fs, 0);
    assert s == Tlv(TagSequence, c0) + [];
    ParseTlv(TagSequence, c0, []);
    FieldsLayout(fs);
    PssHashIff(c0, p.hashAlgor);
    PssMaskGenIff(Fields(fs[1..], 1), p.maskGenAlgor);
    PssIntIff(Fields(fs[2..], 2), 2, p.saltLen);
    PssIntIff(Fields(fs[3..], 3), 3, p.trailerField);
    PssFieldsIff(c0, p);
  }

  /** Whatever is accepted is such a SEQUENCE: the outer element fills the
      input, and nothing but fields [0] to [3], in that order, is inside. */
  lemma ParamsSound(s: seq<Byte>, p: PssParams)
    requires PssParamsOf(s) == Params(p)
    ensures EncodesParams(s, p, FieldsRead(ParseElement(s).value.contents))
  {
    var c0 := ParseElement(s).value.contents;
    ParseElementSound(s);
    PssFieldsIff(c0, p);
    var c1 := AfterField(c0, 0);
    var c2 := AfterField(c1, 1);
    PssHashIff(c0, p.hashAlgor);
    PssMaskGenIff(c1, p.maskGenAlgor);
    PssIntIff(c2, 2, p.saltLen);
    PssIntIff(AfterField(c2, 2), 3, p.trailerField);
    FieldsCover(c0);
  }

  /** Bytes left over after the four field reads make the parameters
      invalid. */
  lemma LeftOverInvalid(c0: seq<Byte>)
    requires AfterField(AfterField(AfterField(AfterField(c0, 0), 1), 2), 3) != []
    ensures PssFields(c0) == Invalid
  {
    if PssFields(c0).Params? {
      PssFieldsIff(c0, PssFields(c0).params);
    }
  }

  /** The field reads skip every field they are not at and stop at a field
      numbered below the last one read. */
  lemma OutOfOrderLeftOver(i: nat, j: nat, ci: seq<Byte>, cj: seq<Byte>)
    requires i < j <= 3 && |ci| < LengthLimit && |cj| < LengthLimit
    ensures AfterField(AfterField(AfterField(AfterField(Tlv(ContextTag(j), cj) + Tlv(ContextTag(i), ci), 0), 1), 2), 3)
      == Tlv(ContextTag(i), ci)
  {
    var late := Tlv(ContextTag(i), ci);
    ParseTlv(ContextTag(j), cj, late);
    assert late == late + [];
    ParseTlv(ContextTag(i), ci, []);
  }

  /** A field after a higher-numbered one is rejected: the fields are read
      in the order [0], [1], [2], [3] only. */
  lemma OutOfOrderRejected(i: nat, j: nat, ci: seq<Byte>, cj: seq<Byte>)
    requires i < j <= 3 && |ci| < LengthLimit && |cj| < LengthLimit
    requires |Tlv(ContextTag(j), cj) + Tlv(ContextTag(i), ci)| < LengthLimit
    ensures PssParamsOf(Tlv(TagSequence, Tlv(ContextTag(j), cj) + Tlv(ContextTag(i), ci))) == Invalid
  {
    var c := Tlv(ContextTag(j), cj) + Tlv(ContextTag(i), ci);
    assert Tlv(TagSequence, c) == Tlv(TagSequence, c) + [];
    ParseTlv(TagSequence, c, []);
    OutOfOrderLeftOver(i, j, ci, cj);
    LeftOverInvalid(c);
  }
}
