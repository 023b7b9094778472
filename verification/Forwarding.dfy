/** How a session token travels: from a browser to the catalog directly, or through the
    recommendations service, which copies it into the header of its own request. */
module Forwarding {
  import opened Model

  /** The session cookie and the Authorization header of a request; "" when absent. */
  datatype Request = Request(cookie: string, authorization: string)

  datatype CutResult = CutResult(before: string, after: string, found: bool)

  /** `strings.Cut(s, " ")`: what is before and after the first space, if there is one. */
  function Cut(s: string): (c: CutResult)
    ensures ' ' !in c.before
    ensures c.found ==> s == c.before + " " + c.after
    ensures !c.found ==> s == c.before && c.after == ""
  {
    if s == "" then CutResult("", "", false)
    else if s[0] == ' ' then CutResult("", s[1..], true)
    else
      var rest := Cut(s[1..]);
      CutResult([s[0]] + rest.before, rest.after, rest.found)
  }

  function LowerCase(c: char): char {
    if 'A' <= c <= 'Z' then (c as int + 32) as char else c
  }

  function ToLower(s: string): string {
    seq(|s|, k requires 0 <= k < |s| => LowerCase(s[k]))
  }

  function HeaderToken(authorization: string): string {
    var CutResult(prefix, token, found) := Cut(authorization);
    if !found || (ToLower(prefix) != "token" && ToLower(prefix) != "bearer") || |token| != USER_TOKEN_LENGTH then ""
    else token
  }

  /** `getRequestToken`: the cookie if it has the length of a token, else the header. */
  function RequestToken(request: Request): string {
    if |request.cookie| == USER_TOKEN_LENGTH then request.cookie else HeaderToken(request.authorization)
  }

  /** The parts are determined: only the first space separates. */
  lemma {:induction false} CutIsUnique(word: string, rest: string)
    requires ' ' !in word
    ensures Cut(word + " " + rest) == CutResult(word, rest, true)
  {
    var s := word + " " + rest;
    if word == "" {
      assert s == [' '] + rest && s[1..] == rest;
    } else {
      assert s[1..] == word[1..] + " " + rest;
      CutIsUnique(word[1..], rest);
      assert [word[0]] + word[1..] == word;
    }
  }

  /** Is `c` the letter, small or capital? */
  predicate IsLetter(c: char, small: char, capital: char) { c == small || c == capital }

  /** The word "token", in any mixture of small letters and capitals. */
  predicate SpellsToken(s: string) {
    && |s| == 5
    && IsLetter(s[0], 't', 'T') && IsLetter(s[1], 'o', 'O') && IsLetter(s[2], 'k', 'K')
    && IsLetter(s[3], 'e', 'E') && IsLetter(s[4], 'n', 'N')
  }

  /** The word "bearer", likewise. */
  predicate SpellsBearer(s: string) {
    && |s| == 6
    && IsLetter(s[0], 'b', 'B') && IsLetter(s[1], 'e', 'E') && IsLetter(s[2], 'a', 'A')
    && IsLetter(s[3], 'r', 'R') && IsLetter(s[4], 'e', 'E') && IsLetter(s[5], 'r', 'R')
  }

  lemma LowerIsLetter(c: char, small: char, capital: char)
    requires 'a' <= small <= 'z' && capital as int + 32 == small as int
    ensures LowerCase(c) == small <==> IsLetter(c, small, capital)
  {
  }

  lemma LowerIsToken(s: string)
    ensures ToLower(s) == "token" <==> SpellsToken(s)
  {
    if |s| == 5 {
      LowerIsLetter(s[0], 't', 'T');
      LowerIsLetter(s[1], 'o', 'O');
      LowerIsLetter(s[2], 'k', 'K');
      LowerIsLetter(s[3], 'e', 'E');
      LowerIsLetter(s[4], 'n', 'N');
      var t := ToLower(s);
      assert t == [t[0], t[1], t[2], t[3], t[4]];
    }
  }

  lemma LowerIsBearer(s: string)
    ensures ToLower(s) == "bearer" <==> SpellsBearer(s)
  {
    if |s| == 6 {
      LowerIsLetter(s[0], 'b', 'B');
      LowerIsLetter(s[1], 'e', 'E');
      LowerIsLetter(s[2], 'a', 'A');
      LowerIsLetter(s[3], 'r', 'R');
      LowerIsLetter(s[4], 'e', 'E');
      LowerIsLetter(s[5], 'r', 'R');
      var t := ToLower(s);
      assert t == [t[0], t[1], t[2], t[3], t[4], t[5]];
    }
  }

  /** Which schemes are accepted before a token. */
  lemma AcceptedSchemes(scheme: string, token: string)
    requires |token| == 16
    ensures HeaderToken(scheme + " " + token) == token <==> SpellsToken(scheme) || SpellsBearer(scheme)
  {
    var header := scheme + " " + token;
    if ' ' in scheme {
      var c := Cut(header);
      assert |c.after| > 16 by { FirstSpaceIsEarlier(scheme, token); }
    } else {
      CutIsUnique(scheme, token);
      LowerIsToken(scheme);
      LowerIsBearer(scheme);
    }
  }

  lemma {:induction false} FirstSpaceIsEarlier(word: string, rest: string)
    requires ' ' in word
    ensures var c := Cut(word + " " + rest); c.found && |rest| < |c.after|
  {
    var s := word + " " + rest;
    assert s[0] == word[0] && s[1..] == word[1..] + " " + rest;
    if word[0] != ' ' {
      assert ' ' in word[1..];
      FirstSpaceIsEarlier(word[1..], rest);
    }
  }

  /** The header carries a token exactly when it is a known scheme, in any case, then one space,
      then 16 characters. */
  lemma HeaderTokenExactly(authorization: string, token: string)
    requires token != ""
    ensures HeaderToken(authorization) == token <==>
            |token| == 16 &&
            exists scheme :: authorization == scheme + " " + token && (SpellsToken(scheme) || SpellsBearer(scheme))
  {
    if HeaderToken(authorization) == token {
      var scheme := Cut(authorization).before;
      assert authorization == scheme + " " + token;
      LowerIsToken(scheme);
      LowerIsBearer(scheme);
    }
    if |token| == 16 {
      forall scheme | authorization == scheme + " " + token && (SpellsToken(scheme) || SpellsBearer(scheme))
        ensures HeaderToken(authorization) == token
      {
        AcceptedSchemes(scheme, token);
      }
    }
  }

  /** Which token a request has: that of its cookie if it is 16 characters long, else that of its
      header, else none. */
  lemma RequestTokenExactly(request: Request, token: string)
    requires token != ""
    ensures RequestToken(request) == token <==>
            |token| == 16 &&
            if |request.cookie| == 16 then request.cookie == token
            else exists scheme :: request.authorization == scheme + " " + token &&
                                  (SpellsToken(scheme) || SpellsBearer(scheme))
  {
    HeaderTokenExactly(request.authorization, token);
  }

  // ---------- What the transport does to a header ----------

  predicate Blank(c: char) { c == ' ' || c == '\t' }

  function TrimRight(s: string): (t: string)
    ensures t <= s && (t != [] ==> !Blank(t[|t| - 1]))
  {
    if s != [] && Blank(s[|s| - 1]) then TrimRight(s[..|s| - 1]) else s
  }

  function TrimLeft(s: string): string {
    if s != [] && Blank(s[0]) then TrimLeft(s[1..]) else s
  }

  /** A header value arrives without the blanks around it. */
  function Sent(value: string): string {
    TrimLeft(TrimRight(value))
  }

  /** The request the recommendations service makes on behalf of another, as the catalog gets it. */
  function Forwarded(request: Request): Request {
    Request("", Sent(if request.cookie != "" then "Token " + request.cookie else request.authorization))
  }

  /** The token the catalog finds in a header made from the cookie. */
  function CookieToken(cookie: string): string {
    if |TrimRight(cookie)| == USER_TOKEN_LENGTH then TrimRight(cookie) else ""
  }

  lemma {:induction false} TrimRightOfSum(a: string, b: string)
    ensures TrimRight(a + b) == if TrimRight(b) == "" then TrimRight(a) else a + TrimRight(b)
    decreases |b|
  {
    if b == "" {
      assert a + b == a;
    } else {
      var last := |b| - 1;
      assert (a + b)[..|a + b| - 1] == a + b[..last];
      if Blank(b[last]) { TrimRightOfSum(a, b[..last]); }
    }
  }

  lemma NoSpaceNoToken(header: string)
    requires ' ' !in header
    ensures HeaderToken(header) == ""
  {
    var c := Cut(header);
    assert ' ' in c.before + " " + c.after by {
      assert (c.before + " " + c.after)[|c.before|] == ' ';
    }
  }

  /** The token of a cookie is what is left of it without blanks at its end, if that is 16 long. */
  lemma CookieTokenExactly(kept: string, blanks: string)
    requires kept == "" || (kept[|kept| - 1] != ' ' && kept[|kept| - 1] != '\t')
    requires forall k :: 0 <= k < |blanks| ==> blanks[k] == ' ' || blanks[k] == '\t'
    ensures CookieToken(kept + blanks) == if |kept| == 16 then kept else ""
  {
    AllBlank(blanks);
    TrimRightOfSum(kept, blanks);
  }

  lemma {:induction false} AllBlank(blanks: string)
    requires forall k :: 0 <= k < |blanks| ==> blanks[k] == ' ' || blanks[k] == '\t'
    ensures TrimRight(blanks) == ""
  {
    if blanks != "" { AllBlank(blanks[..|blanks| - 1]); }
  }

  /** Exactly the blanks and tabs around a value are lost on the way. */
  lemma SentExactly(left: string, kept: string, right: string)
    requires kept != "" && kept[0] != ' ' && kept[0] != '\t'
    requires kept[|kept| - 1] != ' ' && kept[|kept| - 1] != '\t'
    requires forall k :: 0 <= k < |left| ==> left[k] == ' ' || left[k] == '\t'
    requires forall k :: 0 <= k < |right| ==> right[k] == ' ' || right[k] == '\t'
    ensures Sent(left + kept + right) == kept
  {
    AllBlank(right);
    TrimRightOfSum(left + kept, right);
    LeadingBlanks(left, kept);
  }

  lemma {:induction false} LeadingBlanks(left: string, kept: string)
    requires kept != "" && !Blank(kept[0]) && forall k :: 0 <= k < |left| ==> left[k] == ' ' || left[k] == '\t'
    ensures TrimLeft(left + kept) == kept
  {
    if left == "" {
      assert left + kept == kept;
    } else {
      assert (left + kept)[1..] == left[1..] + kept;
      LeadingBlanks(left[1..], kept);
    }
  }

  lemma BareScheme()
    ensures TrimRight("Token ") == "Token"
  {
    assert "Token "[..5] == "Token";
  }

  lemma SchemeAndToken(token: string)
    ensures HeaderToken("Token " + token) == if |token| == USER_TOKEN_LENGTH then token else ""
  {
    CutIsUnique("Token", token);
    assert "Token" + " " + token == "Token " + token;
    assert ToLower("Token") == "token";
  }

  lemma ForwardedCookie(cookie: string)
    ensures HeaderToken(Sent("Token " + cookie)) == CookieToken(cookie)
  {
    TrimRightOfSum("Token ", cookie);
    if TrimRight(cookie) == "" {
      BareScheme();
      NoSpaceNoToken("Token");
    } else {
      SchemeAndToken(TrimRight(cookie));
    }
  }

  /** No cookie; or a token that does not end in a blank; or a cookie that is no token and hides
      none, since the header has the same token as the trimmed cookie, usually neither. */
  predicate CookieIsHarmless(request: Request) {
    || request.cookie == ""
    || (|request.cookie| == USER_TOKEN_LENGTH && !Blank(request.cookie[|request.cookie| - 1]))
    || (|request.cookie| != USER_TOKEN_LENGTH &&
        HeaderToken(request.authorization) == CookieToken(request.cookie))
  }

  /** The catalog finds the same token behind the service as in front of it exactly for such cookies. */
  lemma TokenSurvivesForwarding(request: Request)
    requires Sent(request.authorization) == request.authorization
    ensures RequestToken(Forwarded(request)) == RequestToken(request) <==> CookieIsHarmless(request)
  {
    if request.cookie != "" {
      ForwardedCookie(request.cookie);
    }
  }

  /** The middleware turns a cookie into a header, and the client sends on the header and no cookie:
      the catalog finds the cookie's token, or without a cookie what the header had. */
  method Forward(request: Request) returns (forwarded: Request)
    requires Sent(request.authorization) == request.authorization
    ensures forwarded.cookie == ""
    ensures RequestToken(forwarded) ==
            if request.cookie != "" then CookieToken(request.cookie) else RequestToken(request)
    ensures RequestToken(forwarded) == RequestToken(request) <==> CookieIsHarmless(request)
  {
    var authorization := request.authorization;
    if request.cookie != "" {
      authorization := "Token " + request.cookie;
      ForwardedCookie(request.cookie);
    }
    forwarded := Request("", Sent(authorization));
    TokenSurvivesForwarding(request);
  }

  /** A stray cookie does hide a good header. */
  lemma StrayCookieLosesToken()
    ensures var request := Request("x", "Token " + "abcdef0123456789");
      RequestToken(request) == "abcdef0123456789" && RequestToken(Forwarded(request)) == ""
  {
    ForwardedCookie("x");
    SchemeAndToken("abcdef0123456789");
  }

  /** And a cookie that ends in a blank is a token in front of the service, and none behind it. */
  lemma BlankEndLosesToken()
    ensures var request := Request("abcdef012345678 ", "");
      RequestToken(request) == "abcdef012345678 " && RequestToken(Forwarded(request)) == ""
  {
    ForwardedCookie("abcdef012345678 ");
    assert |TrimRight("abcdef012345678 ")| < USER_TOKEN_LENGTH;
  }
}
