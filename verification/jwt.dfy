/** The `token_required` guard of backend/app/utils/jwt_utils.py: extract the
    bearer token from the `Authorization` header, decode it, and either refuse
    with 401 or run the protected handler on the decoded payload. Decoding
    (signature, expiry, the secret) is a parameter: an oracle that answers
    valid, expired or invalid. */
module Jwt {
  import opened Wrappers
  import opened Text

  const BEARER: string := "Bearer "
  const TOKEN_MISSING: string := "Token is missing"
  const TOKEN_EXPIRED: string := "Token has expired"
  const TOKEN_INVALID: string := "Invalid token"

  /** What `decode_token` does with a token: the payload, or which exception it raises. */
  datatype Decoded<P> = Valid(payload: P) | Expired | Invalid

  /** The guard's outcome: a 401 reply `{"message": text}`, or the handler's reply. */
  datatype Guarded<R> = Denied(code: int, message: string) | Admitted(reply: R)

  /** The header-to-token step: only a header beginning with exactly
      "Bearer " yields a token, namely field 1 of the header split at single
      spaces; an empty field counts as no token. */
  function ExtractToken(header: Option<string>): (r: Option<string>)
    ensures r.Some? ==> header.Some? && StartsWith(header.value, BEARER)
    ensures r.Some? ==> r.value != [] && ' ' !in r.value
    ensures r.Some? ==> |BEARER| + |r.value| <= |header.value|
    ensures r.Some? ==> header.value[|BEARER|..|BEARER| + |r.value|] == r.value
  {
    if header.Some? && StartsWith(header.value, BEARER) then
      var h := header.value;
      assert h[6] == ' ';
      var parts := Split(h, ' ');
      var t := parts[1];
      TokenAfterBearer(h[|BEARER|..]);
      assert h == BEARER + h[|BEARER|..];
      if t == [] then None else Some(t)
    else None
  }

  /** For a header "Bearer " + rest, field 1 is the first space-delimited word of rest. */
  lemma TokenAfterBearer(rest: string)
    ensures |Split(BEARER + rest, ' ')| >= 2
    ensures Split(BEARER + rest, ' ')[1] == Split(rest, ' ')[0]
  {
    assert BEARER + rest == "Bearer" + [' '] + rest;
    SplitAfterWord("Bearer", ' ', rest);
  }

  /** For a header "Bearer " + rest the token is the first space-delimited field of rest, if non-empty. */
  lemma ExtractTokenIs(rest: string)
    ensures ExtractToken(Some(BEARER + rest)) ==
      if Split(rest, ' ')[0] == [] then None else Some(Split(rest, ' ')[0])
  {
    assert StartsWith(BEARER + rest, BEARER);
    TokenAfterBearer(rest);
  }

  /** The extracted token, exactly: for a header "Bearer " + rest it is the
      longest prefix of rest without a space, and there is a token exactly
      when that prefix is non-empty, that is, when rest starts with a
      character other than a space. Any other header yields no token. */
  lemma ExtractTokenExact(rest: string)
    ensures ExtractToken(Some(BEARER + rest)).Some? <==> rest != [] && rest[0] != ' '
    ensures ExtractToken(Some(BEARER + rest)).Some? ==>
      var t := ExtractToken(Some(BEARER + rest)).value;
      t <= rest && ' ' !in t && (t == rest || rest[|t|] == ' ')
  {
    ExtractTokenIs(rest);
    FirstFieldEmpty(rest, ' ');
  }

  /** Field 1 is taken, not the rest of the header: "Bearer a b" yields "a". */
  lemma ExtractFirstWord()
    ensures ExtractToken(Some("Bearer a b")) == Some("a")
  {
    assert "Bearer a b" == BEARER + ("a" + [' '] + "b");
    ExtractTokenExact("a" + [' '] + "b");
    SplitAfterWord("a", ' ', "b");
    TokenAfterBearer("a" + [' '] + "b");
  }

  /** An empty field 1, from "Bearer " alone, is no token. */
  lemma ExtractBareBearer()
    ensures ExtractToken(Some("Bearer ")) == None
  {
    assert "Bearer " == BEARER + "";
    ExtractTokenExact("");
  }

  /** A doubled space after "Bearer" leaves field 1 empty: no token. */
  lemma ExtractDoubleSpace()
    ensures ExtractToken(Some("Bearer  x")) == None
  {
    var rest := " x";
    assert "Bearer  x" == BEARER + rest;
    ExtractTokenExact(rest);
  }

  /** The prefix is case-sensitive and must include the space; no header, no token. */
  lemma ExtractNeedsPrefix()
    ensures ExtractToken(Some("bearer abc")) == None
    ensures ExtractToken(Some("Bearer")) == None
    ensures ExtractToken(None) == None
  {
    assert "bearer abc"[0] != BEARER[0];
  }

  /** `token_required` around a handler: no token gives 401 "Token is missing";
      a token the oracle rejects gives 401 with the oracle's reason; only a
      valid token runs the handler, once, on the decoded payload, and its reply
      is passed through unchanged. */
  function TokenRequired<P, R>(header: Option<string>, decode: string -> Decoded<P>, handler: P -> R): (g: Guarded<R>)
    ensures g.Admitted? <==> ExtractToken(header).Some? && decode(ExtractToken(header).value).Valid?
    ensures g.Admitted? ==> g.reply == handler(decode(ExtractToken(header).value).payload)
    ensures g.Denied? ==> g.code == 401
    ensures ExtractToken(header).None? ==> g == Denied(401, TOKEN_MISSING)
    ensures ExtractToken(header).Some? && decode(ExtractToken(header).value).Expired? ==>
      g == Denied(401, TOKEN_EXPIRED)
    ensures ExtractToken(header).Some? && decode(ExtractToken(header).value).Invalid? ==>
      g == Denied(401, TOKEN_INVALID)
  {
    match ExtractToken(header)
    case None => Denied(401, TOKEN_MISSING)
    case Some(token) =>
      match decode(token)
      case Expired => Denied(401, TOKEN_EXPIRED)
      case Invalid => Denied(401, TOKEN_INVALID)
      case Valid(payload) => Admitted(handler(payload))
  }

  /** The guard looks only at the first word after "Bearer ": whatever
      follows the token in the header does not change the outcome. */
  lemma GuardIgnoresTrailing<P, R>(token: string, tail: string, decode: string -> Decoded<P>, handler: P -> R)
    requires token != [] && ' ' !in token
    ensures TokenRequired(Some(BEARER + token + " " + tail), decode, handler) ==
            TokenRequired(Some(BEARER + token), decode, handler)
  {
    var rest := token + [' '] + tail;
    assert BEARER + token + " " + tail == BEARER + rest;
    SplitAfterWord(token, ' ', tail);
    ExtractTokenIs(rest);
    ExtractTokenIs(token);
    assert ExtractToken(Some(BEARER + rest)) == Some(token);
    assert ExtractToken(Some(BEARER + token)) == Some(token);
  }
}
