/** Character literals of the language: exactly one UTF-8 character. */
module CharLiteral {
  import opened Utf8
  import opened Utf8Text
  import C = Utf8Core
  import U = Utf8Unchecked

  datatype Utf8Error = NoError | Empty | InvalidUtf8 | MultiCharacter

  /** The verdict on a literal, by its division into characters. */
  function Judge(raw: seq<bv8>): Utf8Error {
    if raw == [] then Empty
    else if !Valid(raw) then InvalidUtf8
    else if |DecodeAll(raw)| > 1 then MultiCharacter
    else NoError
  }

  /** `byteLen0` stands for what the caller's variable held; it only changes once a character is decoded. */
  method DecodeUtf8(raw: seq<bv8>, byteLen0: nat) returns (cp: bv32, byteLen: nat, error: Utf8Error)
    ensures error == Judge(raw)
    ensures error == NoError ==> DecodeAll(raw) == [cp] && byteLen == |raw|
    ensures error != NoError ==> cp == 0
    ensures error == Empty || error == InvalidUtf8 ==> byteLen == byteLen0
  {
    byteLen := byteLen0;
    if |raw| == 0 {
      return 0, byteLen, Empty;
    }
    var it := 0;
    assert raw[0..] == raw;
    var bad := C.FindInvalid(raw, it);
    if bad != |raw| {
      return 0, byteLen, InvalidUtf8;
    }
    cp, it := U.Next(raw, it);
    byteLen := it;
    if it != |raw| {
      assert DecodeAll(raw[it..]) != [];
      return 0, byteLen, MultiCharacter;
    }
    assert raw[it..] == [];
    error := NoError;
  }

  /** A literal is accepted exactly if it is the encoding of one scalar value. */
  lemma {:induction false} AcceptedIffOneScalar(raw: seq<bv8>)
    ensures Judge(raw) == NoError <==> exists cp :: Scalar(cp) && raw == Encode(cp)
  {
    if Judge(raw) == NoError {
      var c, rest := Front(raw);
      assert DecodeAll(rest) == [] && rest == [];
      EncodeOfValue(c);
      assert raw == c;
    }
    forall cp | Scalar(cp) && raw == Encode(cp)
      ensures Judge(raw) == NoError
    {
      EncodeWellFormed(cp);
      assert raw + [] == raw;
      DecodeFront(raw, []);
    }
  }

  /** The errors: no byte at all, bytes that encode nothing, or the encoding of several scalar values. */
  lemma {:induction false} JudgeErrors(raw: seq<bv8>)
    ensures Judge(raw) == Empty <==> raw == []
    ensures Judge(raw) == InvalidUtf8 <==> forall cps | Scalars(cps) :: EncodeAll(cps) != raw
    ensures Judge(raw) == MultiCharacter <==> exists cps :: Scalars(cps) && |cps| >= 2 && EncodeAll(cps) == raw
  {
    ValidIffEncoding(raw);
    if Valid(raw) {
      EncodeOfDecode(raw);
    }
    forall cps | Scalars(cps) && EncodeAll(cps) == raw
      ensures Valid(raw) && DecodeAll(raw) == cps
    {
      DecodeOfEncode(cps);
    }
  }
}
