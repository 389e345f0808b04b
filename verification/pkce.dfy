/**
 PKCE helpers (vv-crypto.ts): random strings over the RFC 7636 unreserved
 alphabet, the code verifier and state, and the base64 to base64url rewrite of
 the S256 code challenge. Random bytes and the SHA-256 digest are inputs.
 */
module Pkce {

  type Byte = b: int | 0 <= b < 256

  /** The alphabet random strings are drawn from: upper-case letters, lower-case
      letters, digits, then the four marks. */
  const Chars := Upper + Lower + Digits + Marks

  /** `unreserved` of RFC 7636 section 4.1: ALPHA / DIGIT / "-" / "." / "_" / "~". */
  predicate IsUnreserved(c: char) {
    ('A' <= c <= 'Z') || ('a' <= c <= 'z') || ('0' <= c <= '9') || c == '-' || c == '.' || c == '_' || c == '~'
  }

  predicate AllUnreserved(s: string) {
    forall k | 0 <= k < |s| :: IsUnreserved(s[k])
  }

  const Upper := "ABCDEFGHIJKLMNOPQRSTUVWXYZ"
  const Lower := "abcdefghijklmnopqrstuvwxyz"
  const Digits := "0123456789"
  const Marks := "-._~"

  lemma UpperUnreserved() ensures AllUnreserved(Upper) {}
  lemma LowerUnreserved() ensures AllUnreserved(Lower) {}
  lemma DigitsUnreserved() ensures AllUnreserved(Digits) {}
  lemma MarksUnreserved() ensures AllUnreserved(Marks) {}

  lemma ConcatUnreserved(x: string, y: string)
    requires AllUnreserved(x) && AllUnreserved(y)
    ensures AllUnreserved(x + y)
  {
    forall k | 0 <= k < |x + y|
      ensures IsUnreserved((x + y)[k])
    {
      if k < |x| {
        assert (x + y)[k] == x[k];
      } else {
        assert (x + y)[k] == y[k - |x|];
      }
    }
  }

  /** The alphabet has 66 characters, all unreserved. */
  lemma AlphabetIsUnreserved()
    ensures |Chars| == 66
    ensures AllUnreserved(Chars)
  {
    UpperUnreserved();
    LowerUnreserved();
    DigitsUnreserved();
    MarksUnreserved();
    ConcatUnreserved(Upper, Lower);
    ConcatUnreserved(Upper + Lower, Digits);
    ConcatUnreserved(Upper + Lower + Digits, Marks);
  }

  // ---------------------------------------------------------------------------
  // Random strings
  // ---------------------------------------------------------------------------

  /** The loop of `generateRandomString` over any non-empty alphabet: byte `i`
      picks character `i`, modulo the alphabet size. */
  method PickChars(alphabet: string, randomBytes: seq<Byte>) returns (result: string)
    requires |alphabet| > 0
    ensures |result| == |randomBytes|
    ensures forall i | 0 <= i < |result| :: result[i] == alphabet[randomBytes[i] % |alphabet|]
  {
    result := "";
    var i := 0;
    while i < |randomBytes|
      invariant 0 <= i <= |randomBytes|
      invariant |result| == i
      invariant forall k | 0 <= k < i :: result[k] == alphabet[randomBytes[k] % |alphabet|]
    {
      result := result + [alphabet[randomBytes[i] % |alphabet|]];
      i := i + 1;
    }
  }

  /** `generateRandomString(length)`, given the `length` bytes the random
      source produced. */
  method GenerateRandomString(length: nat, randomBytes: seq<Byte>) returns (result: string)
    requires |randomBytes| == length
    ensures |result| == length
    ensures forall i | 0 <= i < length :: result[i] == Chars[randomBytes[i] % |Chars|]
    ensures AllUnreserved(result)
  {
    AlphabetIsUnreserved();
    result := PickChars(Chars, randomBytes);
  }

  /** `code_verifier` of RFC 7636 section 4.1: 43 to 128 unreserved characters. */
  predicate IsCodeVerifier(s: string) {
    43 <= |s| <= 128 && AllUnreserved(s)
  }

  /** `generateCodeVerifier`: 64 random characters. */
  method GenerateCodeVerifier(randomBytes: seq<Byte>) returns (verifier: string)
    requires |randomBytes| == 64
    ensures |verifier| == 64
    ensures IsCodeVerifier(verifier)
  {
    verifier := GenerateRandomString(64, randomBytes);
  }

  /** `generateState`: 32 random characters. */
  method GenerateState(randomBytes: seq<Byte>) returns (state: string)
    requires |randomBytes| == 32
    ensures |state| == 32
    ensures AllUnreserved(state)
  {
    state := GenerateRandomString(32, randomBytes);
  }

  // ---------------------------------------------------------------------------
  // Base64 to base64url
  // ---------------------------------------------------------------------------

  /** `s.replace(/x/g, y)` for a single character `x`. */
  function ReplaceAllChar(s: string, x: char, y: char): (r: string)
    ensures |r| == |s|
    ensures x != y ==> x !in r
  {
    seq(|s|, i requires 0 <= i < |s| => if s[i] == x then y else s[i])
  }

  /** `s.replace(/x/g, "")` for a single character `x`. */
  function RemoveChar(s: string, x: char): (r: string)
    ensures x !in r
    ensures forall i | 0 <= i < |r| :: r[i] in s
    ensures |r| + multiset(s)[x] == |s|
  {
    if |s| == 0 then ""
    else
      assert s == s[..|s| - 1] + [s[|s| - 1]];
      RemoveChar(s[..|s| - 1], x) + (if s[|s| - 1] == x then "" else [s[|s| - 1]])
  }

  /** The rewrite at the end of `generateCodeChallenge`: base64 to unpadded
      base64url (RFC 4648 section 5, as RFC 7636 section 4.2 requires). */
  function ToBase64Url(base64: string): (r: string)
    ensures '+' !in r && '/' !in r && '=' !in r
    ensures |r| == |base64| - multiset(base64)['=']
  {
    var plusless := ReplaceAllChar(base64, '+', '-');
    var slashless := ReplaceAllChar(plusless, '/', '_');
    assert '+' !in slashless by {
      forall i | 0 <= i < |slashless|
        ensures slashless[i] != '+'
      {
        assert slashless[i] == '_' || slashless[i] == plusless[i];
      }
    }
    assert multiset(slashless)['='] == multiset(base64)['='] by {
      SameEqualsCount(base64, plusless);
      SameEqualsCount(plusless, slashless);
    }
    RemoveChar(slashless, '=')
  }

  /** Two strings that agree on where '=' stands have the same number of them. */
  lemma {:induction false} SameEqualsCount(s: string, t: string)
    requires |s| == |t|
    requires forall i | 0 <= i < |s| :: (s[i] == '=') == (t[i] == '=')
    ensures multiset(s)['='] == multiset(t)['=']
  {
    if |s| > 0 {
      var n := |s| - 1;
      assert s == s[..n] + [s[n]];
      assert t == t[..n] + [t[n]];
      SameEqualsCount(s[..n], t[..n]);
    }
  }

  /** `generateCodeChallenge`, given the base64 SHA-256 digest of the verifier. */
  function GenerateCodeChallenge(digestBase64: string): (challenge: string)
    ensures challenge == ToBase64Url(digestBase64)
    ensures '+' !in challenge && '/' !in challenge && '=' !in challenge
    ensures |challenge| == |digestBase64| - multiset(digestBase64)['=']
  {
    ToBase64Url(digestBase64)
  }

  /** The rewrite changes nothing in its own output. */
  lemma ToBase64UrlIdempotent(s: string)
    ensures ToBase64Url(ToBase64Url(s)) == ToBase64Url(s)
  {
    var u := ToBase64Url(s);
    assert ReplaceAllChar(u, '+', '-') == u;
    assert ReplaceAllChar(u, '/', '_') == u;
    NothingToRemove(u, '=');
  }

  lemma {:induction false} NothingToRemove(s: string, x: char)
    requires x !in s
    ensures RemoveChar(s, x) == s
  {
    if |s| > 0 {
      var n := |s| - 1;
      assert s[n] in s;
      assert s == s[..n] + [s[n]];
      assert x !in s[..n];
      NothingToRemove(s[..n], x);
      assert RemoveChar(s, x) == RemoveChar(s[..n], x) + [s[n]];
    }
  }

  /** Removing a character ignores copies of it appended at the end. */
  lemma {:induction false} RemoveTrailing(s: string, tail: string, x: char)
    requires forall i | 0 <= i < |tail| :: tail[i] == x
    ensures RemoveChar(s + tail, x) == RemoveChar(s, x)
  {
    if |tail| > 0 {
      var n := |tail| - 1;
      assert (s + tail)[..|s + tail| - 1] == s + tail[..n];
      assert (s + tail)[|s + tail| - 1] == x;
      assert RemoveChar(s + tail, x) == RemoveChar(s + tail[..n], x);
      RemoveTrailing(s, tail[..n], x);
    } else {
      assert s + tail == s;
    }
  }

  // ---------------------------------------------------------------------------
  // Round trip through padded base64 (RFC 4648 sections 4 and 5)
  // ---------------------------------------------------------------------------

  /** A character of the base64 alphabet of RFC 4648 section 4 (padding aside). */
  predicate IsBase64Char(c: char) {
    ('A' <= c <= 'Z') || ('a' <= c <= 'z') || ('0' <= c <= '9') || c == '+' || c == '/'
  }

  /** The data characters of a base64 encoding: base64 characters, and never
      one character past a four-character group (a group always carries at
      least two). */
  predicate IsEncodedBody(body: string) {
    |body| % 4 != 1 && forall i | 0 <= i < |body| :: IsBase64Char(body[i])
  }

  /** The '=' characters that complete the last group of `body`. */
  function Padding(body: string): (pad: string)
    ensures (|body| + |pad|) % 4 == 0 && |pad| < 4
    ensures forall i | 0 <= i < |pad| :: pad[i] == '='
  {
    seq((4 - |body| % 4) % 4, _ => '=')
  }

  /** Decoding direction of the rewrite: restore '+', '/' and the padding. */
  function FromBase64Url(url: string): (base64: string)
    ensures |base64| % 4 == 0
  {
    var plus := ReplaceAllChar(url, '-', '+');
    var slash := ReplaceAllChar(plus, '_', '/');
    slash + Padding(url)
  }

  /** The rewrite of a base64 character, and its inverse. */
  function UrlChar(c: char): char {
    if c == '+' then '-' else if c == '/' then '_' else c
  }

  /** The data characters of `body`, each rewritten on its own. */
  function MapUrl(body: string): (url: string)
    ensures |url| == |body|
  {
    seq(|body|, i requires 0 <= i < |body| => UrlChar(body[i]))
  }

  /** The two character rewrites map a padded body character by character and
      leave the padding alone. */
  lemma RewriteOfPadded(body: string)
    requires IsEncodedBody(body)
    ensures ReplaceAllChar(ReplaceAllChar(body + Padding(body), '+', '-'), '/', '_')
            == MapUrl(body) + Padding(body)
  {
  }

  lemma MapUrlHasNoPadding(body: string)
    requires IsEncodedBody(body)
    ensures '=' !in MapUrl(body)
  {
    var url := MapUrl(body);
    forall i | 0 <= i < |url|
      ensures url[i] != '='
    {
      assert IsBase64Char(body[i]);
    }
  }

  /** Rewriting padded base64 drops exactly the padding and maps each data
      character on its own. */
  lemma ToBase64UrlOfPadded(body: string)
    requires IsEncodedBody(body)
    ensures var url := ToBase64Url(body + Padding(body));
            |url| == |body| && forall i | 0 <= i < |body| :: url[i] == UrlChar(body[i])
  {
    var mapped := MapUrl(body);
    RewriteOfPadded(body);
    assert ToBase64Url(body + Padding(body)) == RemoveChar(mapped + Padding(body), '=');
    RemoveTrailing(mapped, Padding(body), '=');
    MapUrlHasNoPadding(body);
    NothingToRemove(mapped, '=');
  }

  /** The padding depends on the length alone. */
  lemma PaddingByLength(x: string, y: string)
    requires |x| == |y|
    ensures Padding(x) == Padding(y)
  {
  }

  /** Restoring '+' and '/' undoes the character rewrite of a base64 body. */
  lemma RestoreChars(body: string, url: string)
    requires IsEncodedBody(body)
    requires |url| == |body| && forall i | 0 <= i < |body| :: url[i] == UrlChar(body[i])
    ensures ReplaceAllChar(ReplaceAllChar(url, '-', '+'), '_', '/') == body
  {
    var back := ReplaceAllChar(ReplaceAllChar(url, '-', '+'), '_', '/');
    forall i | 0 <= i < |body|
      ensures back[i] == body[i]
    {
      assert url[i] == UrlChar(body[i]);
    }
  }

  /** Restoring '+', '/' and the padding undoes the rewrite on every padded
      base64 encoding. */
  lemma Base64UrlRoundTrip(body: string)
    requires IsEncodedBody(body)
    ensures FromBase64Url(ToBase64Url(body + Padding(body))) == body + Padding(body)
  {
    var url := ToBase64Url(body + Padding(body));
    ToBase64UrlOfPadded(body);
    PaddingByLength(url, body);
    RestoreChars(body, url);
  }

  /** The base64 SHA-256 digest has 43 data characters and one '='; the
      challenge is those 43 characters rewritten (RFC 7636 section 4.2). */
  lemma S256ChallengeLength(digestBody: string)
    requires |digestBody| == 43 && IsEncodedBody(digestBody)
    ensures Padding(digestBody) == "="
    ensures |GenerateCodeChallenge(digestBody + "=")| == 43
  {
    assert Padding(digestBody) == "=";
    ToBase64UrlOfPadded(digestBody);
  }
}
