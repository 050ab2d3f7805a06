/** The `POST /generate-password` handler of the secure password API: length
    validation, the character pool chosen by the request's flags, sampling of
    the password, and the complexity label.

    The cryptographically secure random choice is not modelled; the caller
    supplies the draws, a stream of pool indices of which the handler consumes
    one per password character, so that the handler becomes a deterministic
    function of the request and the draws. */
module PasswordApi {
  import opened CharClasses

  /** The request body. Omitted fields take the defaults of the API: length 12
      and all three character classes switched on. */
  datatype PasswordRequest = PasswordRequest(
    length: int := 12,
    includeSymbols: bool := true,
    includeNumbers: bool := true,
    includeUppercase: bool := true)

  datatype Complexity = High | Standard {
    /** The label as it appears in the response body. */
    function Text(): string {
      match this
      case High => "High"
      case Standard => "Standard"
    }
  }

  /** The response: the generated password with its metadata, or the client
      error (HTTP 400) with its `detail` message. */
  datatype Response =
    | Ok(password: string, length: int, complexity: Complexity)
    | Err(detail: string)

  const MinLength: int := 4
  const MaxLength: int := 128
  const LengthError: string := "Length must be between 4 and 128 characters."

  /** The lengths the handler serves; all others are rejected. */
  predicate Accepted(length: int)
    ensures Accepted(length) <==> 4 <= length <= 128
  {
    !(length < MinLength || length > MaxLength)
  }

  /** The defaults of an omitted field. */
  lemma RequestDefaults()
    ensures PasswordRequest() == PasswordRequest(12, true, true, true)
    ensures PasswordRequest(length := 8) == PasswordRequest(8, true, true, true)
  {
  }

  /** The pool as the handler assembles it: lower case letters first, then the
      classes whose flags are set, in the order upper case, digits,
      punctuation. A character is in the pool exactly when the request admits
      it; the pool always begins with the whole lower case alphabet, so it is
      never empty, and each switched-on class adds its full size. */
  function Pool(req: PasswordRequest): (pool: string)
    ensures forall c :: c in pool <==> Admits(req, c)
    ensures |pool| == 26 + (if req.includeUppercase then 26 else 0)
                         + (if req.includeNumbers then 10 else 0)
                         + (if req.includeSymbols then 32 else 0)
    ensures pool[..26] == AsciiLowercase
  {
    LowercaseMembers();
    UppercaseMembers();
    DigitMembers();
    PunctuationMembers();
    AsciiLowercase
    + (if req.includeUppercase then AsciiUppercase else "")
    + (if req.includeNumbers then Digits else "")
    + (if req.includeSymbols then Punctuation else "")
  }

  /** The characters a request allows, described by class rather than by the
      order in which the pool is built. */
  predicate Admits(req: PasswordRequest, c: char) {
    IsAsciiLower(c)
    || (req.includeUppercase && IsAsciiUpper(c))
    || (req.includeNumbers && IsDigit(c))
    || (req.includeSymbols && IsPunctuation(c))
  }

  /** The stream holds at least `count` draws, and each of the first `count`
      is an index into a pool of size `n`. */
  predicate Fits(draws: seq<nat>, count: nat, n: nat) {
    count <= |draws| && forall k :: 0 <= k < count ==> draws[k] < n
  }

  /** What the random source must deliver for a request: for an accepted
      request, at least `length` draws, each of those consumed being an index
      into the pool. */
  predicate DrawsFit(req: PasswordRequest, draws: seq<nat>) {
    Accepted(req.length) ==> Fits(draws, req.length, |Pool(req)|)
  }

  /** The pool built by successive conditional appends to a local string. */
  method BuildPool(req: PasswordRequest) returns (chars: string)
    ensures chars == Pool(req)
    ensures forall c :: c in chars <==> Admits(req, c)
  {
    chars := AsciiLowercase;
    if req.includeUppercase {
      chars := chars + AsciiUppercase;
    }
    if req.includeNumbers {
      chars := chars + Digits;
    }
    if req.includeSymbols {
      chars := chars + Punctuation;
    }
  }

  /** The password of `count` characters drawn from `pool`: one character per
      draw, in draw order, with replacement. */
  function Sample(pool: string, draws: seq<nat>, count: nat): (password: string)
    requires Fits(draws, count, |pool|)
    ensures |password| == count
    ensures forall k :: 0 <= k < count ==> password[k] == pool[draws[k]]
    ensures forall c :: c in password ==> c in pool
    decreases count
  {
    if count == 0 then ""
    else [pool[draws[0]]] + Sample(pool, draws[1..], count - 1)
  }

  /** High exactly when symbols are included and the length exceeds 10. */
  function Label(req: PasswordRequest): (c: Complexity)
    ensures c == High <==> req.includeSymbols && req.length > 10
  {
    if req.includeSymbols && req.length > 10 then High else Standard
  }

  /** The handler as a function of the request and the draws. */
  function Generate(req: PasswordRequest, draws: seq<nat>): (r: Response)
    requires DrawsFit(req, draws)
    ensures r.Err? <==> req.length < 4 || req.length > 128
    ensures r.Err? ==> r.detail == LengthError
    ensures r.Ok? ==> |r.password| == req.length && r.length == req.length
    ensures r.Ok? ==> forall c :: c in r.password ==> Admits(req, c)
    ensures r.Ok? ==> (r.complexity == High <==> req.includeSymbols && req.length > 10)
  {
    if !Accepted(req.length) then
      Err(LengthError)
    else
      Ok(Sample(Pool(req), draws, req.length), req.length, Label(req))
  }

  /** The handler step by step: reject, build the pool, sample, label. */
  method GeneratePassword(req: PasswordRequest, draws: seq<nat>) returns (resp: Response)
    requires DrawsFit(req, draws)
    ensures resp == Generate(req, draws)
  {
    if !Accepted(req.length) {
      return Err(LengthError);
    }
    var chars := BuildPool(req);
    var password := Sample(chars, draws, req.length);
    return Ok(password, req.length, Label(req));
  }

  // Properties of the pool

  /** The classes are disjoint and duplicate-free, so no character of the pool
      is listed twice. */
  lemma PoolDistinct(req: PasswordRequest)
    ensures Distinct(Pool(req))
  {
    LowercaseMembers();
    UppercaseMembers();
    DigitMembers();
    PunctuationMembers();
    var upper := if req.includeUppercase then AsciiUppercase else "";
    var digits := if req.includeNumbers then Digits else "";
    var punct := if req.includeSymbols then Punctuation else "";
    DistinctConcat(AsciiLowercase, upper);
    DistinctConcat(AsciiLowercase + upper, digits);
    DistinctConcat(AsciiLowercase + upper + digits, punct);
  }

  // Properties of the handler

  lemma NoSymbolsNoPunctuation(req: PasswordRequest, draws: seq<nat>)
    requires DrawsFit(req, draws) && !req.includeSymbols
    ensures Generate(req, draws).Ok? ==>
      forall c :: c in Generate(req, draws).password ==> c !in Punctuation
  {
    PunctuationMembers();
  }

  lemma LowercaseOnly(req: PasswordRequest, draws: seq<nat>)
    requires DrawsFit(req, draws)
    requires !req.includeUppercase && !req.includeNumbers && !req.includeSymbols
    ensures Generate(req, draws).Ok? ==>
      forall c :: c in Generate(req, draws).password ==> c in AsciiLowercase
  {
  }

  /** Every string of the requested length over the request's characters is
      the password of some sequence of draws. */
  lemma EveryPasswordReachable(req: PasswordRequest, s: string)
    requires Accepted(req.length) && |s| == req.length
    requires forall c :: c in s ==> Admits(req, c)
    ensures exists draws :: DrawsFit(req, draws) && Generate(req, draws) == Ok(s, req.length, Label(req))
  {
    var pool := Pool(req);
    var draws := Positions(pool, s);
    assert Sample(pool, draws, req.length) == s;
    assert DrawsFit(req, draws) && Generate(req, draws) == Ok(s, req.length, Label(req));
  }

  /** Distinct draw sequences give distinct passwords: with a pool free of
      duplicates, the password determines the draws. */
  lemma DrawsDetermined(req: PasswordRequest, a: seq<nat>, b: seq<nat>)
    requires Accepted(req.length) && DrawsFit(req, a) && DrawsFit(req, b)
    requires Generate(req, a) == Generate(req, b)
    ensures a[..req.length] == b[..req.length]
  {
    PoolDistinct(req);
    var pool := Pool(req);
    forall k | 0 <= k < req.length ensures a[k] == b[k] {
      assert pool[a[k]] == Sample(pool, a, req.length)[k] == Sample(pool, b, req.length)[k] == pool[b[k]];
    }
  }

  /** The handler consumes exactly `length` draws: whatever follows them in the
      stream does not affect the response. */
  lemma ExtraDrawsIgnored(req: PasswordRequest, draws: seq<nat>, extra: seq<nat>)
    requires DrawsFit(req, draws)
    ensures DrawsFit(req, draws + extra)
    ensures Generate(req, draws + extra) == Generate(req, draws)
  {
  }

  // Example requests

  lemma DefaultRequestIsHigh(draws: seq<nat>)
    requires DrawsFit(PasswordRequest(), draws)
    ensures Generate(PasswordRequest(), draws).Ok?
    ensures |Generate(PasswordRequest(), draws).password| == 12
    ensures Generate(PasswordRequest(), draws).complexity == High
  {
  }

  lemma ShortRequestRejected(draws: seq<nat>)
    requires DrawsFit(PasswordRequest(length := 3), draws)
    ensures Generate(PasswordRequest(length := 3), draws) == Err(LengthError)
  {
  }

  lemma LowercaseEightExample(draws: seq<nat>)
    requires DrawsFit(PasswordRequest(8, false, false, false), draws)
    ensures Generate(PasswordRequest(8, false, false, false), draws).Ok?
    ensures |Generate(PasswordRequest(8, false, false, false), draws).password| == 8
    ensures forall c :: c in Generate(PasswordRequest(8, false, false, false), draws).password ==> IsAsciiLower(c)
  {
  }

  // Proof helpers

  ghost function IndexOf(s: string, c: char): (i: nat)
    requires c in s
    ensures i < |s| && s[i] == c
  {
    if s[0] == c then 0 else 1 + IndexOf(s[1..], c)
  }

  /** The draws that reproduce `s` from `pool`. */
  ghost function Positions(pool: string, s: string): (draws: seq<nat>)
    requires forall c :: c in s ==> c in pool
    ensures |draws| == |s| && Fits(draws, |s|, |pool|)
    ensures forall k :: 0 <= k < |s| ==> pool[draws[k]] == s[k]
  {
    seq(|s|, k requires 0 <= k < |s| => IndexOf(pool, s[k]))
  }
}
