/** `authMiddleware` of backend/src/middleware/auth.middleware.ts: reads
    the bearer token from the `Authorization` header. */
module AuthMiddleware {
  import opened Wrappers
  import opened Seqs
  import opened Strings

  /** The `AppError` class declared in this file, built as
      `new AppError(message, statusCode)`. It is a class of its own, not
      the one the error handler recognises. */
  datatype AuthAppError = AuthAppError(message: string, statusCode: int)

  const NoTokenProvided := "No token provided"
  const InvalidTokenFormat := "Invalid token format"

  /** `const [, token] = authHeader.split(' ')`: `None` stands for
      `undefined` when the header has no second field. */
  function SecondField(header: string): Option<string> {
    var fields := Split(header, ' ');
    if |fields| >= 2 then Some(fields[1]) else None
  }

  /** The decision of the middleware: the token, or the error it throws.
      A missing or empty header (both falsy) has no token; a header
      without a non-empty second field has a malformed one. */
  function ParseAuthorization(header: Option<string>): (r: Result<string, AuthAppError>)
    ensures r == Failure(AuthAppError(NoTokenProvided, 401)) <==> header.None? || header == Some("")
    ensures r.Failure? ==>
      r.error.statusCode == 401 && r.error.message in {NoTokenProvided, InvalidTokenFormat}
    ensures r.Success? ==> r.value != "" && ' ' !in r.value
  {
    if header.None? || header.value == "" then
      Failure(AuthAppError(NoTokenProvided, 401))
    else
      match SecondField(header.value)
      case None => Failure(AuthAppError(InvalidTokenFormat, 401))
      case Some(token) =>
        assert token in Split(header.value, ' ');
        if token == "" then Failure(AuthAppError(InvalidTokenFormat, 401)) else Success(token)
  }

  /** A field followed by nothing or by a separator comes out first. */
  lemma FirstFieldThen(t: string, rest: string)
    requires ' ' !in t
    requires rest == "" || rest[0] == ' '
    ensures Split(t + rest, ' ')[0] == t
  {
    if rest == "" {
      assert t + rest == t;
    } else {
      assert t + rest == t + [' '] + rest[1..];
      SplitAfterFirst(t, ' ', rest[1..]);
    }
  }

  /** Splitting `w + " " + t + rest` where neither `w` nor `t` holds a space
      and `rest` is empty or starts a new field. */
  lemma SecondFieldOf(w: string, t: string, rest: string)
    requires ' ' !in w && ' ' !in t
    requires rest == "" || rest[0] == ' '
    ensures SecondField(w + " " + t + rest) == Some(t)
  {
    var h := w + " " + t + rest;
    assert h == w + [' '] + (t + rest);
    SplitAfterFirst(w, ' ', t + rest);
    FirstFieldThen(t, rest);
  }

  /** Any first word is accepted as the scheme: only the second
      space-separated field is read, and it becomes the token. */
  lemma SchemeNotChecked(w: string, t: string, rest: string)
    requires ' ' !in w && ' ' !in t && t != ""
    requires rest == "" || rest[0] == ' '
    ensures ParseAuthorization(Some(w + " " + t + rest)) == Success(t)
  {
    SecondFieldOf(w, t, rest);
  }

  /** An empty second field is falsy and rejected: "Bearer " and "Bearer  x" alike. */
  lemma EmptySecondFieldRejected(w: string, rest: string)
    requires ' ' !in w
    requires rest == "" || rest[0] == ' '
    ensures ParseAuthorization(Some(w + " " + rest)) == Failure(AuthAppError(InvalidTokenFormat, 401))
  {
    SecondFieldOf(w, "", rest);
    assert w + " " + "" + rest == w + " " + rest;
  }

  /** A non-empty header without a space, such as "InvalidFormat", is malformed. */
  lemma NoSpaceRejected(header: string)
    requires header != "" && ' ' !in header
    ensures ParseAuthorization(Some(header)) == Failure(AuthAppError(InvalidTokenFormat, 401))
  {
  }

  /** The first field of a split runs up to the first separator or the end. */
  lemma FirstFieldIsPrefix(s: string)
    ensures var t := Split(s, ' ')[0];
      |t| <= |s| && s[..|t|] == t && (|t| == |s| || s[|t|] == ' ')
  {
  }

  /** The second field, when there is one, is the first field of what
      follows the first space. */
  lemma SecondFieldAfterFirstSpace(header: string)
    ensures ' ' !in header ==> SecondField(header) == None
    ensures ' ' in header ==>
      SecondField(header) == Some(Split(header[FirstIndex(header, ' ') + 1..], ' ')[0])
  {
  }

  /** When the first space of `header` is at `i`, the second field is the
      first field of what follows it. */
  lemma SecondFieldAt(header: string, i: nat)
    requires i < |header| && header[i] == ' ' && ' ' !in header[..i]
    ensures SecondField(header) == Some(Split(header[i + 1..], ' ')[0])
  {
    assert header == header[..i] + [' '] + header[i + 1..];
    SplitAfterFirst(header[..i], ' ', header[i + 1..]);
  }

  /** A field found at the start of a suffix of `h` sits at that offset in `h`. */
  lemma FieldInSuffix(h: string, k: nat, t: string)
    requires k <= |h|
    requires |t| <= |h[k..]| && h[k..][..|t|] == t
    requires |t| == |h[k..]| || h[k..][|t|] == ' '
    ensures k + |t| <= |h| && h[k..k + |t|] == t
    ensures k + |t| == |h| || h[k + |t|] == ' '
  {
    assert h[k..][..|t|] == h[k..k + |t|];
  }

  /** The second field is exactly the text between the header's first and
      second space (or its end). */
  lemma SecondFieldBetweenFirstSpaces(header: string)
    requires SecondField(header).Some?
    ensures ' ' in header
    ensures var i := FirstIndex(header, ' ');
      var t := SecondField(header).value;
      && i + 1 + |t| <= |header|
      && header[i + 1..i + 1 + |t|] == t
      && (i + 1 + |t| == |header| || header[i + 1 + |t|] == ' ')
  {
    var i := FirstIndex(header, ' ');
    SecondFieldAt(header, i);
    FirstFieldIsPrefix(header[i + 1..]);
    FieldInSuffix(header, i + 1, Split(header[i + 1..], ' ')[0]);
  }

  /** An accepted token is exactly the text between the header's first and
      second space (or its end). */
  lemma TokenBetweenFirstSpaces(header: string)
    requires ParseAuthorization(Some(header)).Success?
    ensures ' ' in header
    ensures var i := FirstIndex(header, ' ');
      var t := ParseAuthorization(Some(header)).value;
      && i + 1 + |t| <= |header|
      && header[i + 1..i + 1 + |t|] == t
      && (i + 1 + |t| == |header| || header[i + 1 + |t|] == ' ')
  {
    assert ParseAuthorization(Some(header)).value == SecondField(header).value;
    SecondFieldBetweenFirstSpaces(header);
  }

  /** The incoming request: the header it carries and the `token` field
      the middleware sets. */
  class Request {
    const authorization: Option<string>
    var token: Option<string>

    constructor (authorization: Option<string>)
      ensures this.authorization == authorization && token == None
    {
      this.authorization := authorization;
      token := None;
    }
  }

  /** What one call does: hands over to `next()`, or throws. */
  datatype Outcome = Next | Thrown(error: AuthAppError)

  /** `authMiddleware(req, res, next)`: sets `req.token` and calls `next`
      exactly when a token was extracted; otherwise throws and leaves the
      request alone. Never both. */
  method Authenticate(req: Request) returns (outcome: Outcome)
    modifies req
    ensures outcome.Next? <==> ParseAuthorization(req.authorization).Success?
    ensures match ParseAuthorization(req.authorization)
      case Success(t) => outcome == Next && req.token == Some(t)
      case Failure(e) => outcome == Thrown(e) && req.token == old(req.token)
  {
    var authHeader := req.authorization;
    if authHeader.None? || authHeader.value == "" {
      return Thrown(AuthAppError(NoTokenProvided, 401));
    }
    var token := SecondField(authHeader.value);
    if token.None? || token.value == "" {
      return Thrown(AuthAppError(InvalidTokenFormat, 401));
    }
    req.token := token;
    outcome := Next;
  }
}
