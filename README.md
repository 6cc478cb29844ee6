# P-384 scalar multiplication and the RSASSA-PSS parameter decoder, in Dafny

This project models two parts of aws-lc and proves properties of them.

**The P-384 group layer** (`crypto/fipsmodule/ec/p384.c`) covers the curve
P-384 of FIPS 186-4, Appendix D.1.2.4.

- The fiat field engine is a black box here. A field element is its residue
  modulo p = 2^384 − 2^128 − 2^96 + 2^32 − 1, and each engine call (`mul`,
  `square`, `add`, `sub`) returns the residue of the exact result
  (`P384Field`).
- On top of that engine the model has:
  - the `inv_square` addition chain, with ghost exponents that follow it step
    by step;
  - the Jacobian doubling and addition formulas, call by call, including the
    selections for points at infinity and the fall-back to doubling
    (`P384Point`);
  - the affine-coordinate and x-coordinate checks;
  - the big-endian output of a field element.
- The two scalar recoders are methods over `array<int>`: the regular wNAF
  (77 odd digits in radix 2^5) and the textbook wNAF (385 sparse digits in
  radix 2) (`P384Scalar`).
- The three scalar multiplications keep the source's loops and table
  selections (`P384Mul`). They run over the group elements the coordinates
  stand for, written as integer combinations g·G + p·P of the base point G
  and the input point P.
- The proofs show:
  - the on-the-fly table holds [2i+1]P;
  - the accumulator equals [scalar | 1]P after the digit loop;
  - the parity correction gives [scalar]P;
  - the comb over groups 3..0, reading sub-table j/4 for digit j, gives
    [scalar]G;
  - the public double-scalar loop gives [g]G + [p]P.

**The RSASSA-PSS parameter decoder** (`crypto/rsa_extra/rsassa_pss_asn1.c`)
reads RSASSA-PSS-params (section 3.1 of RFC 4055). It accepts the one-way
hash identifiers of section 2.1 and the MGF1 identifier of section 2.2.

- The `CBS` cursor is a class whose field `data` holds the unread bytes
  (`Der.Cbs`). `CBS_get_asn1` and `CBS_get_asn1_int64` are methods on it.
  They follow X.690 DER: one identifier octet, then a definite length in
  minimal form with at most four length octets.
- Every decoder is a method that advances its cursor in place, as the
  source's are. Each one is proved equal to a function that says what it
  accepts.
- Those functions are then characterised by lemmas, in terms of the
  encodings they accept:
  - the OID table lookup accepts exactly the table's entries;
  - a hash identifier is one of the five supported OIDs, with NULL or absent
    parameters;
  - the mask generation identifier is MGF1 over one of those hash
    identifiers;
  - an RSA integer is the minimal INTEGER encoding of a 64-bit value;
  - the parameters are a SEQUENCE of the optional fields [0]..[3], in that
    order and with nothing after them. Any field placed after a
    higher-numbered one is rejected.
- An out-pointer is an `Option`, which stays `None` when the source does not
  write through it. On every failure `RSASSA_PSS_parse_params` writes
  nothing. On empty input it succeeds and writes nothing.

The comments around the textbook wNAF do not agree with its code. The model
states what the code does (`P384Scalar.Wnaf`): the five digits after a
non-zero digit are zero. The bound is tight: tracing the loop at
`p384.c:555-567` by hand for the scalar 65 (`in[0] = 0x41`) gives non-zero
digits at positions 0 and 6.
- The comment at `p384.c:548-549` overstates the gap. It promises
  `FIAT_P384_SCALAR_DRADIX - 1` zero digits, and `DRADIX` is 32
  (`p384.c:519`), so that is 31.
- The comment at `p384.c:850-851` understates it, at "at least four".

## Model

| member | source | states |
|---|---|---|
| P384Scalar.GetBit | crypto/fipsmodule/ec/p384.c:510-515 | The bit read is 0 or 1, and it is 0 for every index below 0 or from 384 on. |
| P384Scalar.GetBitIsScalarBit | crypto/fipsmodule/ec/p384.c:510-515 | For every index i ≥ 0, `(in[i >> 3] >> (i & 7)) & 1` with the bounds guard is bit i of the 384-bit little-endian scalar. |
| P384Scalar.SetLowBitShift | crypto/fipsmodule/ec/p384.c:532 | Forcing the low bit (`in[0] \| 1`) leaves every bit above bit 0 unchanged. |
| P384Scalar.RegularWnaf | crypto/fipsmodule/ec/p384.c:523-544 | Digits 0..75 are odd and in [−31, 31]. Digit 76 is odd and in [1, 15], so `rnaf[76] >> 1` indexes a 16-entry table. The sum of digit i times 2^(5i) is the scalar with its low bit forced to one. |
| P384Scalar.RefillWindow | crypto/fipsmodule/ec/p384.c:538-542 | The five `get_bit` additions add bits base+1 .. base+5 of the scalar, at weights 2 .. 32, to the shifted window. The result lies between the carry and the carry plus 62. |
| P384Scalar.RwnafResult | crypto/fipsmodule/ec/p384.c:529-544 | When the recoding loop ends, the window invariant gives the digit bounds and the value reconstruction above. |
| P384Scalar.Wnaf | crypto/fipsmodule/ec/p384.c:546-568 | Every digit is 0, or odd and in [−31, 31]. The five digits after a non-zero digit are zero. The sum of digit i times 2^i is the scalar. The value of every suffix of the digits is non-negative. |
| P384Scalar.WnafResult | crypto/fipsmodule/ec/p384.c:552-568 | After 385 steps, the digits reconstruct the scalar and every suffix has a non-negative value. |
| P384Mul.SelectPoint | crypto/fipsmodule/ec/p384.c:570-583 | The whole table is scanned. The result is entry idx when idx is in range, and the all-zero value otherwise. The table is not modified. |
| P384Mul.SelectPointAffine | crypto/fipsmodule/ec/p384.c:585-597 | Same as `SelectPoint`, for the affine table. |
| P384Field.SquareTimes | crypto/fipsmodule/ec/p384.c:85-175 | n squarings of in^e give in^(e·2^n) mod p. |
| P384Field.InvSquare | crypto/fipsmodule/ec/p384.c:75-175 | The addition chain ends at exponent exactly p − 3, so the output is in^(p−3) mod p. The ghost exponent is checked at every milestone the source comments name (2^2−1, 2^3−1, 2^6−1, …, 2^382−2^126−2^94+2^30−1). |
| P384Field.InvSquareTimesSquare | crypto/fipsmodule/ec/p384.c:75-84 | out · in^2 = in^(p−1) mod p, so out is the inverse square of a nonzero input by Fermat's little theorem. |
| P384Field.FelemToBytes | crypto/fipsmodule/ec/p384.c:429-443 | The output is 48 bytes long, `*out_len` is 48, and the bytes read big-endian give the field element. |
| P384Point.PointDoubleMatchesFormula | crypto/fipsmodule/ec/p384.c:194-237 | The step-by-step doubling equals the dbl-2001-b formulas with a = −3 over the integers mod p: X3 = M^2 − 8XY^2 with M = 3(X − Z^2)(X + Z^2), Z3 = 2YZ, and Y3 = M(4XY^2 − X3) − 8Y^4. |
| P384Point.PointDouble | crypto/fipsmodule/ec/p384.c:194-237 | The engine-call sequence of point_double keeps a point at infinity (Z = 0) at infinity: (Y + 0)^2 − Y^2 − 0^2 = 0. Its full value is stated by `PointDoubleMatchesFormula`. |
| P384Point.PointAdd | crypto/fipsmodule/ec/p384.c:248-362 | If z2 = 0 the result is (x1, y1, z1). If z1 = 0 and z2 ≠ 0 the result is (x2, y2, z2). These are the final `cmovznz` selections, in both the full and the mixed path. |
| P384Point.AddDetectsSamePoint | crypto/fipsmodule/ec/p384.c:296-317 | h = 0 and r = 0 hold exactly when both inputs stand for the same affine point (cross-multiplied). |
| P384Point.PointAddOfSamePoint | crypto/fipsmodule/ec/p384.c:318-327 | With both Z nonzero and h = r = 0, the result is `point_double(x1, y1, z1)`. |
| P384Point.PointAddMatchesFormula | crypto/fipsmodule/ec/p384.c:329-354 | With both Z nonzero and distinct affine points, the result is the add-2007-bl formula: X3 = r^2 − J − 2V, Y3 = r(V − X3) − 2·S1·J, Z3 = 2·Z1·Z2·h. |
| P384Point.AddSelfIsDouble | crypto/fipsmodule/ec/p384.c:318-327 | Adding a finite point to itself gives its double. |
| P384Point.MixedAgreesWithFull | crypto/fipsmodule/ec/p384.c:263-289 | The mixed path, which takes z2 = 1, gives the same result as the full path on a point with Z2 = 1. |
| P384Point.GetAffineCoordinates | crypto/fipsmodule/ec/p384.c:368-397 | Fails exactly for the point at infinity. Otherwise x is written exactly when it is asked for (`x_out` not NULL), and so is y. x = X·Z^(p−3) and y = Y·Z·(Z^(p−3))^2. Given Fermat's theorem for Z, x·Z^2 = X and y·Z^3 = Y. |
| P384Point.CmpXCoordinate | crypto/fipsmodule/ec/p384.c:459-504 | A match implies the point is not at infinity. |
| P384Point.CmpXCoordinateMatchesAffine | crypto/fipsmodule/ec/p384.c:459-504 | Given Fermat's theorem for Z, the comparison against r·Z^2, and against (r + n)·Z^2 when r < p − n, holds exactly when the affine x reduced mod n equals r. |
| P384Mul.OddMultiples | crypto/fipsmodule/ec/p384.c:636-651 | Table entry i holds [2i+1]P, for i in [0, 15]. |
| P384Mul.SignedIndex | crypto/fipsmodule/ec/p384.c:670-679 | For an odd digit in [−31, 31], the index `abs(d) >> 1` is below 16 and the signed table entry is [d]. |
| P384Mul.RegularDigitStep | crypto/fipsmodule/ec/p384.c:664-689 | Five doublings plus the signed table entry extend the accumulator's multiple by one digit. |
| P384Mul.PointMul | crypto/fipsmodule/ec/p384.c:627-709 | The result is [scalar]P. The accumulator is [scalar \| 1]P after the digit loop, and P is subtracted exactly when the scalar is even. |
| P384Mul.CombValue | crypto/fipsmodule/ec/p384.c:710-768 | Summing the four digit groups (3, 2, 1, then 0), each group's digit j weighted by 2^(20·(j/4)), with five doublings between groups, equals the radix-2^5 value of the digits. |
| P384Mul.SignedCombEntry | crypto/fipsmodule/ec/p384.c:789-813 | For digit j, the entry read from sub-table j/4, negated for a negative digit, is [d·2^(20·(j/4))]G. |
| P384Mul.PointMulBase | crypto/fipsmodule/ec/p384.c:769-833 | The result is [scalar]G. G is subtracted exactly when the scalar is even. |
| P384Mul.FirstSubTable | crypto/fipsmodule/ec/p384.c:851-856 | The first comb sub-table, which the public multiplication reads, holds [2k+1]G. |
| P384Mul.PublicIndex | crypto/fipsmodule/ec/p384.c:912-915 | For a nonzero odd digit in [−31, 31], `(±d − 1) >> 1` is below 16 and selects [d] after the sign is applied. |
| P384Mul.AddDigit | crypto/fipsmodule/ec/p384.c:910-936 | A zero digit changes nothing. A nonzero digit adds [d] of the table's point. An accumulator at infinity is replaced by the table entry itself. |
| P384Mul.PublicStep | crypto/fipsmodule/ec/p384.c:903-971 | One iteration doubles the accumulator (skipped while it is at infinity), then adds the p-digit and the g-digit multiples. |
| P384Mul.TextbookDigits | crypto/fipsmodule/ec/p384.c:894-897 | The recoded digits are 0 or odd in [−31, 31] and rebuild the scalar. |
| P384Mul.PointMulPublic | crypto/fipsmodule/ec/p384.c:866-977 | The result is [g_scalar]G + [p_scalar]P. |
| Der.Cbs.GetAsn1 | crypto/rsa_extra/rsassa_pss_asn1.c:104-105 | Succeeds exactly when the bytes start with a well-formed element of the requested tag, and then yields its contents. The cursor moves past any well-formed element, even one of another tag, and stays put on malformed input. |
| Der.Cbs.GetAsn1Int64 | crypto/rsa_extra/rsassa_pss_asn1.c:185 | Succeeds exactly on a well-formed INTEGER whose contents are the minimal two's-complement encoding of a 64-bit value, and yields that value. |
| Der.ParseTlv | crypto/rsa_extra/rsassa_pss_asn1.c:104-105 | An element written as tag, minimal length and contents parses back to that tag, those contents and the bytes after it. |
| Der.ParseElementSound | crypto/rsa_extra/rsassa_pss_asn1.c:104-105 | Whatever parses is exactly the encoding of its tag and contents, followed by the rest. |
| Der.IntegerBytesRoundTrip | crypto/rsa_extra/rsassa_pss_asn1.c:185 | The minimal two's-complement encoding of v is valid and decodes to v. |
| Der.IntegerBytesUnique | crypto/rsa_extra/rsassa_pss_asn1.c:185 | A valid (minimal) INTEGER body is the encoding of its own value, so the encoding is unique. |
| Der.Int64ValueIff | crypto/rsa_extra/rsassa_pss_asn1.c:185 | An INTEGER body decodes to v exactly when v fits in 64 bits and the body is v's minimal encoding. |
| RsassaPss.LookupIff | crypto/rsa_extra/rsassa_pss_asn1.c:71-88 | In a table without repeated OIDs, the lookup yields algorithm n exactly when the table has an entry for n with the same OID bytes. |
| RsassaPss.HashLookup | crypto/rsa_extra/rsassa_pss_asn1.c:14-53 | The hash table accepts exactly the OIDs of SHA-1, SHA-224, SHA-256, SHA-384 and SHA-512, each mapped to its own algorithm. |
| RsassaPss.MgLookup | crypto/rsa_extra/rsassa_pss_asn1.c:55-66 | The mask generation table accepts exactly the MGF1 OID. |
| RsassaPss.ParseOid | crypto/rsa_extra/rsassa_pss_asn1.c:71-88 | Finds the first entry whose OID equals the cursor's bytes in length and content. It succeeds exactly when there is one. |
| RsassaPss.IsAbsentOrNull | crypto/rsa_extra/rsassa_pss_asn1.c:93-98 | True exactly when the bytes are empty or one NULL with empty contents and nothing after it. |
| RsassaPss.AbsentOrNullIff | crypto/rsa_extra/rsassa_pss_asn1.c:90-98 | The accepted parameters are exactly the empty string and the two bytes 05 00. |
| RsassaPss.DecodeOneWayHash | crypto/rsa_extra/rsassa_pss_asn1.c:102-112 | Succeeds, and yields the algorithm, exactly as `OneWayHash` says. |
| RsassaPss.OneWayHashIff | crypto/rsa_extra/rsassa_pss_asn1.c:100-112 | Yields hash a exactly on the SEQUENCE holding a's OID with absent or NULL parameters, and nothing after it, for the five supported hashes. |
| RsassaPss.DecodeMaskGen | crypto/rsa_extra/rsassa_pss_asn1.c:116-141 | Succeeds, and yields the identifier, exactly as `MaskGen` says. |
| RsassaPss.MaskGenIff | crypto/rsa_extra/rsassa_pss_asn1.c:114-141 | Yields (MGF1, hash) exactly on the SEQUENCE holding the MGF1 OID and one supported hash identifier, and nothing after either. |
| RsassaPss.MaskGenSound | crypto/rsa_extra/rsassa_pss_asn1.c:120-129 | Whatever is accepted names MGF1 and a supported hash, and is encoded as described for `MaskGenIff`. |
| RsassaPss.MaskGenComplete | crypto/rsa_extra/rsassa_pss_asn1.c:120-135 | Every MGF1 identifier over a supported hash, with or without NULL, is accepted with those algorithms. |
| RsassaPss.GetContextSpecificValue | crypto/rsa_extra/rsassa_pss_asn1.c:143-159 | Finds the constructed context-specific [index] element and moves past it. When the element is absent, it returns false and leaves the cursor exactly where it was. |
| RsassaPss.DecodePssHash | crypto/rsa_extra/rsassa_pss_asn1.c:161-170 | An absent [0] is success with nothing written. A present [0] must decode as a one-way hash. |
| RsassaPss.DecodePssMaskGen | crypto/rsa_extra/rsassa_pss_asn1.c:172-181 | An absent [1] is success with nothing written. A present [1] must decode as a mask generation identifier. |
| RsassaPss.ParseRsaInt | crypto/rsa_extra/rsassa_pss_asn1.c:183-194 | Succeeds exactly when an int64 INTEGER fills the whole field, and yields its value. |
| RsassaPss.RsaIntIff | crypto/rsa_extra/rsassa_pss_asn1.c:183-194 | A field yields v exactly when v fits in 64 bits and the field is the minimal INTEGER encoding of v, with nothing after it. |
| RsassaPss.DecodePssSaltLen | crypto/rsa_extra/rsassa_pss_asn1.c:196-205 | An absent [2] is success with nothing written. A present [2] must be an RSA integer. |
| RsassaPss.DecodePssTrailerField | crypto/rsa_extra/rsassa_pss_asn1.c:207-216 | An absent [3] is success with nothing written. A present [3] must be an RSA integer. |
| RsassaPss.ParseParams | crypto/rsa_extra/rsassa_pss_asn1.c:218-249 | Empty input succeeds with nothing written. Otherwise it succeeds exactly when `PssParamsOf` accepts, and only then writes the parameters. On failure nothing is written. |
| RsassaPss.ParamsComplete | crypto/rsa_extra/rsassa_pss_asn1.c:230-242 | Every SEQUENCE of the optional fields [0]..[3], in order, whose present fields decode, is accepted with exactly the decoded values. |
| RsassaPss.ParamsSound | crypto/rsa_extra/rsassa_pss_asn1.c:230-234 | Whatever is accepted is such a SEQUENCE, filling the whole input. The fields it reads make up the SEQUENCE's entire contents. |
| RsassaPss.OutOfOrderRejected | crypto/rsa_extra/rsassa_pss_asn1.c:230-234 | A field placed after a higher-numbered field makes the parameters invalid. |

## Left out

- The fiat field engine (`third_party/fiat`) is not part of this model. That covers its limbs, the limb-width choice at `p384.c:20-39`, and the Montgomery form with `to/from_montgomery` and `from/to_generic`. A field element is its canonical residue.
- `fiat_p384_opp` and the sign `cmovznz` in the drivers are modelled at the group level, as `P384Mul.Negate`.
- That the Jacobian formulas implement the curve's group law is not modelled; the source defers it to external proofs. The drivers therefore run over abstract group elements (g·G + p·P), and coordinate-level corner cases inside a multiplication (an addition of equal points in the constant-time loops) are not represented.
- `p384_table.h` is not part of this model. `P384Mul.GPreComp` gives the group element each comb entry stands for.
- Timing, constant-time behaviour and the choice between branches and `cmovznz` are not functional properties and are not modelled.
- The `int8_t` digits and windows of the recoders are unbounded integers here. The digit bounds the model proves show that the values fit in `int8_t`.
- P384Point.GetAffineCoordinates: the statement that x·Z^2 = X and y·Z^3 = Y takes Fermat's little theorem for Z as a hypothesis, because the primality of p is not proved here.
- P384Point.CmpXCoordinateMatchesAffine: takes the same Fermat hypothesis for Z.
- P384Point.CmpXCoordinate: `OPENSSL_memcmp` on Montgomery representations becomes equality of field values. `bn_less_than_words` and `bn_add_words` become integer comparison and addition.
- P384Field.FelemToBytes: the output length is fixed at 48, the byte length of the P-384 field.
- The thin wrappers `ec_GFp_nistp384_add`, `ec_GFp_nistp384_dbl` and `ec_GFp_nistp384_mont_felem_from_bytes` (`p384.c:399-424`, `445-457`) are left out, as is the EC_METHOD dispatch table (`p384.c:979-1006`).
- The CBS bytestring library is not part of this model. `Der` models the part of it the decoder uses, after X.690 DER.
- Der.Cbs.GetAsn1: only single-octet (low-tag-number) identifiers are modelled. A high-tag-number identifier counts as malformed, so after such an element the model leaves the cursor in place where the library would move past it. Every caller fails either way.
- Der.ContextTag: only indices below 31 are modelled; the decoder uses 0 to 3.
- Error-queue calls (`OPENSSL_PUT_ERROR`), the `RSA_*_new`/`RSA_*_free` functions (`rsassa_pss_asn1.c:251-317`) and the frees on failure paths are left out. Allocation always succeeds, and the decoded structures are values.
- NIDs are an enumeration; their numeric values are not modelled.
- `crypto/ocsp/ocsp_client.c` (a wrapper over library calls whose behaviour is not visible) and the CI helper `tests/ci/cryptofuzz/util/util.py` are not part of this model.
