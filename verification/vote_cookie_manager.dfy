/**
 * `VoteCookieManager`: the anonymous voter's cookie and the principal key
 * that identifies a voter for "one submission per week".
 *
 * Strings are sequences of characters. The servlet request's cookie array is
 * `Option<seq<Cookie>>` (`getCookies()` returns `null` when there are none),
 * a cookie's value is nullable, and the fresh `UUID.randomUUID().toString()`
 * is the parameter `freshId`. The `Set-Cookie` header becomes a
 * `SetCookie` value instead of a write to the response.
 */
module VoteCookieManager {
  import opened ApiStatus

  const VoteCookie: string := "vote_cookie_id"

  /** `VOTE_COOKIE_TTL_SEC`: 180 days of 24 hours, in seconds. */
  const VoteCookieTtlSec: int := 15_552_000

  // ---- Java's notion of blank ----

  /**
   * `Character.isWhitespace`, by code point: tab, line feed, vertical tab,
   * form feed, carriage return, the four information separators, and the
   * Unicode space, line and paragraph separators except the no-break spaces
   * U+00A0, U+2007 and U+202F.
   */
  predicate IsWhitespace(c: char) {
    var n := c as int;
    || 0x09 <= n <= 0x0D
    || 0x1C <= n <= 0x20
    || n == 0x1680
    || (0x2000 <= n <= 0x200A && n != 0x2007)
    || n == 0x2028 || n == 0x2029 || n == 0x205F || n == 0x3000
  }

  /** `String.isBlank`: empty, or whitespace only. */
  predicate IsBlank(s: string) {
    forall i :: 0 <= i < |s| ==> IsWhitespace(s[i])
  }

  // ---- "m:" + memberId ----

  function DigitChar(d: int): (c: char)
    requires 0 <= d < 10
    ensures '0' <= c <= '9'
  {
    "0123456789"[d]
  }

  /** The decimal digits of `n`, most significant first, with no leading zero. */
  function Digits(n: nat): (s: string)
    ensures |s| >= 1
    ensures n >= 10 <==> |s| >= 2
    ensures forall i :: 0 <= i < |s| ==> '0' <= s[i] <= '9'
  {
    if n < 10 then [DigitChar(n)] else Digits(n / 10) + [DigitChar(n % 10)]
  }

  /** `Long.toString`: a minus sign for a negative value, then its digits. */
  function DecimalString(n: int): (s: string)
    ensures |s| >= 1
  {
    if n < 0 then "-" + Digits(-n) else Digits(n)
  }

  lemma DigitCharInjective(a: int, b: int)
    requires 0 <= a < 10 && 0 <= b < 10
    requires DigitChar(a) == DigitChar(b)
    ensures a == b
  {
    assert "0123456789"[a] == "0123456789"[b];
  }

  /** Different numbers have different digit strings. */
  lemma {:induction false} DigitsInjective(a: nat, b: nat)
    requires Digits(a) == Digits(b)
    ensures a == b
  {
    if a < 10 {
      DigitCharInjective(a, b);
    } else {
      var da := Digits(a);
      var db := Digits(b);
      assert da[..|da| - 1] == Digits(a / 10);
      assert db[..|db| - 1] == Digits(b / 10);
      DigitsInjective(a / 10, b / 10);
      assert da[|da| - 1] == DigitChar(a % 10);
      assert db[|db| - 1] == DigitChar(b % 10);
      DigitCharInjective(a % 10, b % 10);
    }
  }

  /** A printed `Long` starts with a minus sign exactly when it is negative. */
  lemma DecimalStringSign(n: int)
    ensures DecimalString(n)[0] == '-' <==> n < 0
  {
    if n >= 0 {
      assert '0' <= Digits(n)[0] <= '9';
    }
  }

  /** After its minus sign, a negative number prints its magnitude. */
  lemma NegativeDigits(n: int)
    requires n < 0
    ensures DecimalString(n)[1..] == Digits(-n)
  {
    assert DecimalString(n) == "-" + Digits(-n);
  }

  /** Different `Long`s print differently. */
  lemma DecimalStringInjective(a: int, b: int)
    requires DecimalString(a) == DecimalString(b)
    ensures a == b
  {
    DecimalStringSign(a);
    DecimalStringSign(b);
    if a < 0 {
      NegativeDigits(a);
      NegativeDigits(b);
      DigitsInjective(-a, -b);
    } else {
      assert b >= 0;
      DigitsInjective(a, b);
    }
  }

  // ---- toPrincipalKey ----

  /**
   * `toPrincipalKey(memberId, cookieId)`: a member votes as `"m:" + memberId`;
   * otherwise a usable cookie votes as `"c:" + cookieId`; otherwise
   * `VOTE_AUTH_REQUIRED`.
   */
  function ToPrincipalKey(memberId: Option<int>, cookieId: Option<string>): (r: Result<string>)
    ensures r.Ok? ==> |r.value| >= 2
    ensures memberId.Some? ==> r.Ok? && r.value[..2] == "m:" && r.value[2..] == DecimalString(memberId.value)
    ensures memberId.None? && r.Ok? ==> cookieId.Some? && r.value[..2] == "c:" && r.value[2..] == cookieId.value
    ensures r.Err? <==> memberId.None? && (cookieId.None? || IsBlank(cookieId.value))
    ensures r.Err? ==> r.error == VoteAuthRequired
  {
    if memberId.Some? then Ok("m:" + DecimalString(memberId.value))
    else if cookieId.Some? && !IsBlank(cookieId.value) then Ok("c:" + cookieId.value)
    else Err(VoteAuthRequired)
  }

  /** A member's key is never an anonymous voter's key: their prefixes differ. */
  lemma MemberAndCookieKeysNeverCollide(memberId: int, member: Option<string>, cookieId: Option<string>)
    requires ToPrincipalKey(None, cookieId).Ok?
    ensures ToPrincipalKey(Some(memberId), member).value != ToPrincipalKey(None, cookieId).value
  {
    var m := ToPrincipalKey(Some(memberId), member).value;
    var c := ToPrincipalKey(None, cookieId).value;
    assert m[0] == 'm' && c[0] == 'c';
  }

  /** Equal keys mean the same voter: the same member, or the same cookie. */
  lemma PrincipalKeyIdentifiesVoter(m1: Option<int>, c1: Option<string>, m2: Option<int>, c2: Option<string>)
    requires ToPrincipalKey(m1, c1).Ok? && ToPrincipalKey(m2, c2).Ok?
    requires ToPrincipalKey(m1, c1).value == ToPrincipalKey(m2, c2).value
    ensures m1 == m2
    ensures m1.None? ==> c1 == c2
  {
    var k := ToPrincipalKey(m1, c1).value;
    if m1.Some? && m2.Some? {
      DecimalStringInjective(m1.value, m2.value);
    } else if m1.None? && m2.None? {
      assert c1.value == k[2..] == c2.value;
    }
  }

  // ---- ensureVoteCookie ----

  /** A request cookie. */
  datatype Cookie = Cookie(name: string, value: Option<string>)

  /** The `Set-Cookie` the manager emits. */
  datatype SetCookie = SetCookie(name: string, value: string, httpOnly: bool, secure: bool, sameSite: string, path: string, maxAge: int)

  /** What `ensureVoteCookie` returns, and the header it adds, if any. */
  datatype CookieDecision = CookieDecision(cookieId: string, setCookie: Option<SetCookie>)

  /** Cookie `i` is the first one named `vote_cookie_id`. */
  predicate IsFirstVoteCookie(cookies: seq<Cookie>, i: int) {
    && 0 <= i < |cookies|
    && cookies[i].name == VoteCookie
    && forall j :: 0 <= j < i ==> cookies[j].name != VoteCookie
  }

  /** The value of the first cookie named `vote_cookie_id`; `None` when there is none or its value is `null`. */
  function VoteCookieValue(cookies: seq<Cookie>): (r: Option<string>)
    ensures forall i :: IsFirstVoteCookie(cookies, i) ==> r == cookies[i].value
    ensures (forall i :: 0 <= i < |cookies| ==> cookies[i].name != VoteCookie) ==> r == None
  {
    if |cookies| == 0 then None
    else if cookies[0].name == VoteCookie then cookies[0].value
    else
      var r := VoteCookieValue(cookies[1..]);
      assert forall i :: IsFirstVoteCookie(cookies, i) ==> IsFirstVoteCookie(cookies[1..], i - 1);
      r
  }

  /** The cookie `ensureVoteCookie` finds, when the request has cookies at all. */
  function ExistingVoteCookie(cookies: Option<seq<Cookie>>): Option<string> {
    if cookies.None? then None else VoteCookieValue(cookies.value)
  }

  /** The scan of `ensureVoteCookie`: walk the cookies and stop at the first one named `vote_cookie_id`. */
  method ScanVoteCookie(cookies: Option<seq<Cookie>>) returns (existing: Option<string>)
    ensures existing == ExistingVoteCookie(cookies)
  {
    existing := None;
    if cookies.Some? {
      var cs := cookies.value;
      var i := 0;
      while i < |cs|
        invariant 0 <= i <= |cs|
        invariant existing == None
        invariant forall j :: 0 <= j < i ==> cs[j].name != VoteCookie
      {
        if cs[i].name == VoteCookie {
          existing := cs[i].value;
          assert IsFirstVoteCookie(cs, i);
          return;
        }
        i := i + 1;
      }
    }
  }

  /** A later cookie of the same name never changes what the scan finds. */
  lemma {:induction false} LaterDuplicatesIgnored(first: seq<Cookie>, later: seq<Cookie>)
    requires exists i :: 0 <= i < |first| && first[i].name == VoteCookie
    ensures VoteCookieValue(first + later) == VoteCookieValue(first)
  {
    if first[0].name != VoteCookie {
      assert (first + later)[1..] == first[1..] + later;
      var i :| 0 <= i < |first| && first[i].name == VoteCookie;
      assert first[1..][i - 1].name == VoteCookie;
      LaterDuplicatesIgnored(first[1..], later);
    }
  }

  /** The cookie issued for a fresh id. */
  function NewVoteCookie(cookieId: string): SetCookie {
    SetCookie(VoteCookie, cookieId, true, true, "Lax", "/", VoteCookieTtlSec)
  }

  /**
   * `ensureVoteCookie` as written: the existing value is reused only when it
   * is present and blank; otherwise a fresh id is returned and set as the
   * vote cookie for 180 days.
   */
  function EnsureVoteCookie(cookies: Option<seq<Cookie>>, freshId: string): (r: CookieDecision)
    ensures var existing := ExistingVoteCookie(cookies);
            r.setCookie.None? <==> existing.Some? && IsBlank(existing.value)
    ensures r.setCookie.None? ==> r.cookieId == ExistingVoteCookie(cookies).value
    ensures r.setCookie.Some? ==>
              && r.cookieId == freshId
              && r.setCookie.value == SetCookie("vote_cookie_id", freshId, true, true, "Lax", "/", 60 * 60 * 24 * 180)
  {
    var existing := ExistingVoteCookie(cookies);
    if existing.Some? && IsBlank(existing.value) then CookieDecision(existing.value, None)
    else CookieDecision(freshId, Some(NewVoteCookie(freshId)))
  }

  /** `ensureVoteCookie` with the test it evidently intends: reuse a present, non-blank value. */
  function EnsureVoteCookieIntended(cookies: Option<seq<Cookie>>, freshId: string): (r: CookieDecision)
    ensures var existing := ExistingVoteCookie(cookies);
            r.setCookie.None? <==> existing.Some? && !IsBlank(existing.value)
    ensures r.setCookie.None? ==> r.cookieId == ExistingVoteCookie(cookies).value
    ensures r.setCookie.Some? ==>
              && r.cookieId == freshId
              && r.setCookie.value == SetCookie("vote_cookie_id", freshId, true, true, "Lax", "/", 60 * 60 * 24 * 180)
  {
    var existing := ExistingVoteCookie(cookies);
    if existing.Some? && !IsBlank(existing.value) then CookieDecision(existing.value, None)
    else CookieDecision(freshId, Some(NewVoteCookie(freshId)))
  }

  /**
   * As written, a returning anonymous voter with a usable cookie is given a
   * new id, so their principal key changes on every visit.
   */
  lemma AsWrittenReissuesUsableCookie(cookies: Option<seq<Cookie>>, freshId: string)
    requires ExistingVoteCookie(cookies).Some? && !IsBlank(ExistingVoteCookie(cookies).value)
    requires freshId != ExistingVoteCookie(cookies).value
    ensures var kept := ExistingVoteCookie(cookies).value;
            var r := EnsureVoteCookie(cookies, freshId);
            && r.setCookie.Some?
            && ToPrincipalKey(None, Some(r.cookieId)) != ToPrincipalKey(None, Some(kept))
  {
    var kept := ExistingVoteCookie(cookies).value;
    var r := EnsureVoteCookie(cookies, freshId);
    assert !IsBlank(freshId) ==> ToPrincipalKey(None, Some(freshId)).value[2..] == freshId;
  }

  /** As written, a blank cookie is handed back, and no principal key can be made from it. */
  lemma AsWrittenBlankCookieCannotVote(cookies: Option<seq<Cookie>>, freshId: string)
    requires ExistingVoteCookie(cookies).Some? && IsBlank(ExistingVoteCookie(cookies).value)
    ensures ToPrincipalKey(None, Some(EnsureVoteCookie(cookies, freshId).cookieId)) == Err(VoteAuthRequired)
  {
  }

  /** A concrete request: the cookie `vote_cookie_id=abc` is replaced by the fresh id. */
  lemma AsWrittenReplacesAbc(freshId: string)
    ensures EnsureVoteCookie(Some([Cookie(VoteCookie, Some("abc"))]), freshId).cookieId == freshId
  {
    assert "abc"[0] == 'a' && !IsWhitespace('a');
  }

  /** With the intended test, a usable cookie keeps its id, and so its voter's principal key. */
  lemma IntendedKeepsVoterIdentity(cookies: Option<seq<Cookie>>, freshId: string)
    requires ExistingVoteCookie(cookies).Some? && !IsBlank(ExistingVoteCookie(cookies).value)
    ensures var kept := ExistingVoteCookie(cookies).value;
            var r := EnsureVoteCookieIntended(cookies, freshId);
            && r.setCookie.None?
            && ToPrincipalKey(None, Some(r.cookieId)) == Ok("c:" + kept)
  {
  }

  /** With the intended test and a fresh id that is not blank (a UUID never is), the returned id always yields a principal key. */
  lemma IntendedAlwaysYieldsPrincipalKey(cookies: Option<seq<Cookie>>, freshId: string)
    requires !IsBlank(freshId)
    ensures ToPrincipalKey(None, Some(EnsureVoteCookieIntended(cookies, freshId).cookieId)).Ok?
  {
  }
}
