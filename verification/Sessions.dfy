/** Cookies and the session table behind them. */
module Sessions {
  import opened Basics
  import opened Queries
  import Decimal

  // --- Cookies

  /** What follows a cookie: the text after its ';', if any. */
  function After(s: string): string {
    var end := IndexOf(s, ';');
    if end < |s| then s[end + 1..] else ""
  }

  lemma AfterShorter(s: string)
    requires s != ""
    ensures |After(s)| < |s|
  {
  }

  lemma SkipSpacesShorter(s: string)
    ensures |Decimal.SkipSpaces(s)| <= |s|
  {
  }

  /** cookieManager::getCookies: pieces without a name or without '=' are ignored; white space
      after a piece is skipped only when the piece counted. */
  function Cookies(s: string): Elements
    decreases |s|
  {
    if s == "" then map[]
    else
      AfterShorter(s);
      SkipSpacesShorter(After(s));
      var segment := s[..IndexOf(s, ';')];
      var div := IndexOf(segment, '=');
      if div == 0 || div == |segment| then Cookies(After(s))
      else map[segment[..div] := segment[div + 1..]] + Cookies(Decimal.SkipSpaces(After(s)))
  }

  lemma CookiesStep(s: string)
    requires s != ""
    ensures var segment := s[..IndexOf(s, ';')];
      var div := IndexOf(segment, '=');
      Cookies(s) ==
      if div == 0 || div == |segment| then Cookies(After(s))
      else map[segment[..div] := segment[div + 1..]] + Cookies(Decimal.SkipSpaces(After(s)))
  {
    hide IndexOf, After;
  }

  method GetCookies(mixed: string) returns (values: Elements)
    ensures values == Cookies(mixed)
  {
    hide IndexOf, Cookies, Decimal.SkipSpaces;
    values := map[];
    var it := 0;
    ghost var goal := Cookies(mixed);
    assert mixed[0..] == mixed;
    while it != |mixed|
      invariant it <= |mixed|
      invariant goal == values + Cookies(mixed[it..])
      decreases |mixed| - it
    {
      ghost var rest := mixed[it..];
      CookiesStep(rest);
      var end := it + IndexOf(mixed[it..], ';');
      assert rest[..end - it] == mixed[it..end];
      var div := it + IndexOf(mixed[it..end], '=');
      ghost var segment := mixed[it..end];
      assert segment[..div - it] == mixed[it..div];
      assert div < end ==> segment[div - it + 1..] == mixed[div + 1..end];
      var next := if end < |mixed| then end + 1 else end;
      assert After(rest) == mixed[next..] by {
        assert end < |mixed| ==> rest[end - it + 1..] == mixed[end + 1..];
        assert mixed[|mixed|..] == "";
      }
      if it == div || div == end {
        it := next;
      } else {
        values := values[mixed[it..div] := mixed[div + 1..end]];
        it := SkipFrom(mixed, next);
      }
    }
    CookiesOfNothing();
    assert mixed[it..] == "" && values + map[] == values;
  }

  lemma CookiesOfNothing()
    ensures Cookies("") == map[]
  {
  }

  /** The inner loop over white space. */
  method SkipFrom(s: string, from: nat) returns (it: nat)
    requires from <= |s|
    ensures from <= it <= |s| && s[it..] == Decimal.SkipSpaces(s[from..])
  {
    it := from;
    while it != |s| && IsSpace(s[it])
      invariant from <= it <= |s|
      invariant Decimal.SkipSpaces(s[from..]) == Decimal.SkipSpaces(s[it..])
      decreases |s| - it
    {
      assert s[it..][1..] == s[it + 1..];
      it := it + 1;
    }
  }

  /** cookieManager::get. */
  function Get(values: Elements, name: string): string {
    if name in values then values[name] else ""
  }

  datatype Cookie = Cookie(name: string, value: string)

  predicate WellFormed(c: Cookie) {
    && c.name != "" && !IsSpace(c.name[0])
    && ';' !in c.name && '=' !in c.name && ';' !in c.value
  }

  /** setCookie's form of one cookie. */
  function CookieText(c: Cookie): string {
    c.name + ['='] + c.value
  }

  /** The cookie string of section 4.2.1 of RFC 6265. */
  function CookieString(cs: seq<Cookie>): string {
    if cs == [] then ""
    else if |cs| == 1 then CookieText(cs[0])
    else CookieText(cs[0]) + [';'] + ([' '] + CookieString(cs[1..]))
  }

  function LastWins(cs: seq<Cookie>): Elements {
    if cs == [] then map[] else map[cs[0].name := cs[0].value] + LastWins(cs[1..])
  }

  /** A piece with a name and an '=' is a cookie, whatever the name begins with. */
  lemma CookieRead(c: Cookie, rest: string)
    requires c.name != "" && ';' !in c.name && '=' !in c.name && ';' !in c.value
    requires rest == "" || rest[0] == ';'
    ensures Cookies(CookieText(c) + rest) ==
            map[c.name := c.value] + Cookies(Decimal.SkipSpaces(if rest == "" then "" else rest[1..]))
  {
    hide IndexOf, Cookies, Decimal.SkipSpaces;
    var t := CookieText(c);
    var s := t + rest;
    CookiesStep(s);
    IndexOfOver(t, ';', rest);
    RestStart(rest);
    assert s[..|t|] == t;
    IndexOfConcat(c.name, '=', c.value);
    assert t[..|c.name|] == c.name && t[|c.name| + 1..] == c.value;
    assert rest != "" ==> s[|t| + 1..] == rest[1..];
  }

  lemma CookieBack(c: Cookie, rest: string)
    requires WellFormed(c)
    requires rest == "" || rest[0] == ';'
    ensures Cookies(CookieText(c) + rest) ==
            map[c.name := c.value] + Cookies(Decimal.SkipSpaces(if rest == "" then "" else rest[1..]))
  {
    hide Cookies, CookieText, Decimal.SkipSpaces;
    CookieRead(c, rest);
  }

  /** A piece without an '=', or without a name in front of it, is no cookie; white space behind
      it belongs to the next piece. */
  lemma NoCookie(u: string, rest: string)
    requires ';' !in u && ('=' !in u || u[0] == '=')
    requires rest == "" || rest[0] == ';'
    ensures Cookies(u + rest) == Cookies(if rest == "" then "" else rest[1..])
  {
    hide IndexOf, Cookies;
    var s := u + rest;
    if s == "" {
      assert rest == "";
    } else {
      CookiesStep(s);
      IndexOfOver(u, ';', rest);
      RestStart(rest);
      assert s[..|u|] == u;
      if '=' !in u {
        IndexOfAbsent(u, '=');
      } else {
        DivideFirst(u);
      }
      assert rest != "" ==> s[|u| + 1..] == rest[1..];
    }
  }

  lemma DivideFirst(u: string)
    requires u != "" && u[0] == '='
    ensures IndexOf(u, '=') == 0
  {
  }

  lemma RestStart(rest: string)
    requires rest == "" || rest[0] == ';'
    ensures IndexOf(rest, ';') == 0
  {
  }

  /** Reading a well-formed cookie string gives the last value of every name. */
  lemma {:induction false} CookiesBack(cs: seq<Cookie>)
    requires forall c | c in cs :: WellFormed(c)
    ensures Cookies(CookieString(cs)) == LastWins(cs)
  {
    hide Cookies, CookieText, WellFormed;
    if cs == [] {
      CookiesOfNothing();
    } else {
      assert cs[0] in cs;
      var t := CookieText(cs[0]);
      if |cs| == 1 {
        CookieBack(cs[0], "");
        CookiesOfNothing();
        assert t + "" == t && cs[1..] == [];
      } else {
        forall c | c in cs[1..]
          ensures WellFormed(c)
        {
          assert c in cs;
        }
        CookiesBack(cs[1..]);
        var more := CookieString(cs[1..]);
        var rest := [';'] + ([' '] + more);
        CookieBack(cs[0], rest);
        assert t + [';'] + ([' '] + more) == t + rest;
        assert rest[1..] == [' '] + more && ([' '] + more)[1..] == more;
        NoLeadingSpace(cs[1..]);
      }
    }
  }

  lemma NoLeadingSpace(cs: seq<Cookie>)
    requires cs != [] && forall c | c in cs :: WellFormed(c)
    ensures Decimal.SkipSpaces([' '] + CookieString(cs)) == CookieString(cs)
  {
    assert cs[0] in cs;
    var s := CookieString(cs);
    assert s[0] == cs[0].name[0];
    assert ([' '] + s)[1..] == s;
    assert Decimal.SkipSpaces(s) == s;
  }

  // --- Sessions

  const AUTH := "auth"

  /** getSessionID. */
  function SessionId(cookie: string): Option<nat> {
    var auth := Get(Cookies(cookie), AUTH);
    if auth == "" then None else Decimal.FromChars(auth)
  }

  /** An issued ID, sent back as the last `auth` cookie of any well-formed cookie string, is
      recovered exactly. */
  lemma SessionIdBack(id: nat, before: seq<Cookie>, behind: seq<Cookie>)
    requires id <= Decimal.MAX_U64
    requires forall c | c in before + behind :: WellFormed(c)
    requires forall c | c in behind :: c.name != "auth"
    ensures SessionId(CookieString(before + [Cookie("auth", Decimal.ToText(id))] + behind)) == Some(id)
  {
    hide Cookies, CookieString, Decimal.ToText;
    var mine := Cookie(AUTH, Decimal.ToText(id));
    var cs := before + [mine] + behind;
    assert forall c | c in Decimal.ToText(id) :: Decimal.IsDigit(c);
    forall c | c in cs
      ensures WellFormed(c)
    {
      if c != mine {
        assert c in before + behind;
      }
    }
    CookiesBack(cs);
    LastOf(before, mine, behind);
    Decimal.FromCharsToText(id, "");
    assert Decimal.ToText(id) + "" == Decimal.ToText(id);
  }

  /** A well-formed cookie string without an `auth` cookie has no session ID. */
  lemma NoAuthCookie(cs: seq<Cookie>)
    requires forall c | c in cs :: WellFormed(c) && c.name != "auth"
    ensures SessionId(CookieString(cs)) == None
  {
    hide Cookies, CookieString, Decimal.FromChars, WellFormed;
    CookiesBack(cs);
    NotAmong(cs, AUTH);
  }

  /** And neither has one whose last `auth` cookie does not begin with a digit. */
  lemma BadAuthCookie(before: seq<Cookie>, value: string, behind: seq<Cookie>)
    requires forall c | c in before + [Cookie("auth", value)] + behind :: WellFormed(c)
    requires forall c | c in behind :: c.name != "auth"
    requires value == "" || !Decimal.IsDigit(value[0])
    ensures SessionId(CookieString(before + [Cookie("auth", value)] + behind)) == None
  {
    hide Cookies, CookieString, Decimal.FromChars, WellFormed, Decimal.ToText;
    CookiesBack(before + [Cookie("auth", value)] + behind);
    LastOf(before, Cookie("auth", value), behind);
    Decimal.FromCharsReads(0, 0, value);
  }

  lemma {:induction false} LastOf(before: seq<Cookie>, c: Cookie, behind: seq<Cookie>)
    requires forall d | d in behind :: d.name != c.name
    ensures c.name in LastWins(before + [c] + behind)
    ensures LastWins(before + [c] + behind)[c.name] == c.value
  {
    var cs := before + [c] + behind;
    if before == [] {
      assert cs[1..] == behind;
      NotAmong(behind, c.name);
    } else {
      assert cs[1..] == before[1..] + [c] + behind;
      LastOf(before[1..], c, behind);
    }
  }

  lemma {:induction false} NotAmong(cs: seq<Cookie>, name: string)
    requires forall d | d in cs :: d.name != name
    ensures name !in LastWins(cs)
  {
    if cs != [] {
      NotAmong(cs[1..], name);
    }
  }

  datatype Session = Session(level: int, user: nat)

  type Table = map<nat, Session>

  /** The row of USERS a login matched: user ID and permission level, as text. */
  datatype Login = NoMatch | Match(id: string, permissions: string)

  const MAX_U32: nat := 0xFFFF_FFFF

  /** The cast of an unsigned 32-bit number to authLevel, an enumeration over int. */
  function AsLevel(n: nat): (level: int)
    requires n <= MAX_U32
    ensures -0x8000_0000 <= level < 0x8000_0000 && (level - n) % 0x1_0000_0000 == 0
  {
    if n < 0x8000_0000 then n else n - 0x1_0000_0000
  }

  function ReadSession(login: Login): Option<Session> {
    match login
    case NoMatch => None
    case Match(id, permissions) =>
      var user, level := Decimal.FromChars(id), Decimal.FromChars(permissions);
      if user.Some? && level.Some? && level.value <= MAX_U32 then Some(Session(AsLevel(level.value), user.value))
      else None
  }

  /** The first drawn ID that no session has. */
  function FirstFree(draws: seq<nat>, t: Table): Option<nat> {
    if draws == [] then None else if draws[0] in t then FirstFree(draws[1..], t) else Some(draws[0])
  }

  function Released(t: Table, cookie: string): Table {
    var id := SessionId(cookie);
    if id.Some? then t - {id.value} else t
  }

  datatype Call =
    | RequestCall(cookie: string, named: bool, login: Login, draws: seq<nat>)
    | ReleaseCall(cookie: string)

  /** The session a call issues. A request gives up the session it comes with even when the
      login then fails. */
  function Issued(t: Table, c: Call): Option<(nat, Session)> {
    if c.RequestCall? && c.named then
      var id, s := FirstFree(c.draws, Released(t, c.cookie)), ReadSession(c.login);
      if id.Some? && s.Some? then Some((id.value, s.value)) else None
    else None
  }

  function Step(t: Table, c: Call): Table {
    if c.RequestCall? && !c.named then t
    else
      var r := Released(t, c.cookie);
      match Issued(t, c)
      case None => r
      case Some((id, s)) => r[id := s]
  }

  function Run(t: Table, calls: seq<Call>): Table
    decreases |calls|
  {
    if calls == [] then t else Run(Step(t, calls[0]), calls[1..])
  }

  predicate Verify(t: Table, cookie: string, level: int) {
    var id := SessionId(cookie);
    id.Some? && id.value in t && t[id.value].level >= level
  }

  /** Whether an ID is free for a login that comes with this cookie, which gives up its own. */
  predicate Free(t: Table, cookie: string, id: nat) {
    id !in t || SessionId(cookie) == Some(id)
  }

  lemma {:induction false} FirstFreeFirst(draws: seq<nat>, t: Table, i: nat)
    requires i < |draws| && draws[i] !in t
    requires forall j | 0 <= j < i :: draws[j] in t
    ensures FirstFree(draws, t) == Some(draws[i])
  {
    if i > 0 {
      assert draws[0] in t;
      FirstFreeFirst(draws[1..], t, i - 1);
    }
  }

  lemma {:induction false} FirstFreeIsFree(draws: seq<nat>, t: Table)
    ensures FirstFree(draws, t).Some? ==> FirstFree(draws, t).value !in t && FirstFree(draws, t).value in draws
    ensures FirstFree(draws, t).None? <==> forall d | d in draws :: d in t
  {
    if draws != [] {
      FirstFreeIsFree(draws[1..], t);
      assert forall d :: d in draws <==> d == draws[0] || d in draws[1..];
    }
  }

  lemma RequestIssues(t: Table, cookie: string, named: bool, login: Login, draws: seq<nat>)
    ensures var c := RequestCall(cookie, named, login, draws);
      && (!named ==> Issued(t, c).None? && Step(t, c) == t)
      && (login.NoMatch? ==> Issued(t, c).None?)
      && (Issued(t, c).Some? ==> Issued(t, c).value.0 in draws && Free(t, cookie, Issued(t, c).value.0))
      && forall id | id in t && !(Issued(t, c).Some? && Issued(t, c).value.0 == id)
                     && !(named && SessionId(cookie) == Some(id)) ::
           id in Step(t, c) && Step(t, c)[id] == t[id]
  {
    hide SessionId, Decimal.FromChars, FirstFree;
    FirstFreeIsFree(draws, Released(t, cookie));
  }

  /** A login of the user with ID `u` and permissions `p`, as the row of USERS has them. */
  function LoginOf(cookie: string, u: nat, p: nat, draws: seq<nat>): Call {
    RequestCall(cookie, true, Match(Decimal.ToText(u), Decimal.ToText(p)), draws)
  }

  /** The level that permissions grant: themselves, or, from 2^31 on, a negative number. */
  function Granted(p: nat): int {
    if p <= 0x7FFF_FFFF then p else p - 0x1_0000_0000
  }

  /** A login issues the first drawn ID that is free, for a session of its user at the level of
      the user's permissions, and gives up the session it came with; nothing else changes. */
  lemma LoginIssues(t: Table, cookie: string, u: nat, p: nat, draws: seq<nat>, i: nat)
    requires u <= 0xFFFF_FFFF_FFFF_FFFF && p <= 0xFFFF_FFFF
    requires i < |draws| && Free(t, cookie, draws[i]) && forall j | 0 <= j < i :: !Free(t, cookie, draws[j])
    ensures var c := LoginOf(cookie, u, p, draws);
      && Issued(t, c) == Some((draws[i], Session(Granted(p), u)))
      && draws[i] in Step(t, c) && Step(t, c)[draws[i]] == Session(Granted(p), u)
      && forall id | id != draws[i] ::
           && (id in Step(t, c) <==> id in t && SessionId(cookie) != Some(id))
           && (id in Step(t, c) ==> Step(t, c)[id] == t[id])
  {
    hide SessionId, Decimal.ToText, Decimal.FromChars, FirstFree;
    Decimal.FromCharsToText(u, "");
    Decimal.FromCharsToText(p, "");
    assert Decimal.ToText(u) + "" == Decimal.ToText(u) && Decimal.ToText(p) + "" == Decimal.ToText(p);
    FirstFreeFirst(draws, Released(t, cookie), i);
  }

  /** A login without a user, or with a column that is no number of its width, issues nothing,
      but gives up the session it came with. */
  lemma NothingIssued(t: Table, cookie: string, login: Login, draws: seq<nat>)
    requires login.Match? ==>
               || Decimal.FromChars(login.id).None?
               || Decimal.FromChars(login.permissions).None?
               || Decimal.FromChars(login.permissions).value > 0xFFFF_FFFF
    ensures var c := RequestCall(cookie, true, login, draws);
      && Issued(t, c).None?
      && forall id ::
           && (id in Step(t, c) <==> id in t && SessionId(cookie) != Some(id))
           && (id in Step(t, c) ==> Step(t, c)[id] == t[id])
  {
    hide SessionId, Decimal.FromChars, FirstFree;
  }

  class Authenticator {
    var sessions: Table

    constructor ()
      ensures sessions == map[]
    {
      sessions := map[];
    }

    /** release. */
    method Release(cookie: string) returns (released: bool)
      modifies this
      ensures sessions == Step(old(sessions), ReleaseCall(cookie))
      ensures released <==> SessionId(cookie).Some?
    {
      var id := SessionId(cookie);
      if id.None? {
        return false;
      }
      sessions := sessions - {id.value};
      released := true;
    }

    /** request; `draws` is what the random generator delivers, long enough to hold a free ID
        when a login matched, as the source then draws until it finds one. */
    method Request(cookie: string, named: bool, login: Login, draws: seq<nat>) returns (issued: Option<nat>)
      requires named && login.Match? ==> FirstFree(draws, Released(sessions, cookie)).Some?
      modifies this
      ensures sessions == Step(old(sessions), RequestCall(cookie, named, login, draws))
      ensures var i := Issued(old(sessions), RequestCall(cookie, named, login, draws));
        issued == if i.Some? then Some(i.value.0) else None
      ensures !named ==> issued.None? && sessions == old(sessions)
      ensures login.NoMatch? ==> issued.None?
      ensures issued.Some? ==> issued.value in draws && Free(old(sessions), cookie, issued.value)
      ensures forall id | id in old(sessions) && issued != Some(id) && !(named && SessionId(cookie) == Some(id)) ::
                id in sessions && sessions[id] == old(sessions)[id]
    {
      RequestIssues(sessions, cookie, named, login, draws);
      hide SessionId;
      if !named {
        return None;
      }
      if SessionId(cookie).Some? {
        var _ := Release(cookie);
      }
      if login.NoMatch? {
        return None;
      }
      var val := draws[0];
      var i := 0;
      assert draws[0..] == draws;
      while val in sessions
        invariant i < |draws| && val == draws[i]
        invariant FirstFree(draws, sessions) == FirstFree(draws[i..], sessions)
        invariant FirstFree(draws, sessions).Some?
        decreases |draws| - i
      {
        assert draws[i..][1..] == draws[i + 1..];
        i := i + 1;
        val := draws[i];
      }
      var user := Decimal.FromChars(login.id);
      if user.None? {
        return None;
      }
      var level := Decimal.FromChars(login.permissions);
      if level.None? || level.value > MAX_U32 {
        return None;
      }
      sessions := sessions[val := Session(AsLevel(level.value), user.value)];
      issued := Some(val);
    }

    /** verify. */
    method VerifyRequest(cookie: string, checkLevel: int) returns (ok: bool)
      ensures ok == Verify(sessions, cookie, checkLevel)
    {
      var id := SessionId(cookie);
      ok := id.Some? && id.value in sessions && sessions[id.value].level >= checkLevel;
    }
  }

  /** Whether a call gives up the session with this ID: it presents the ID and is a logout, or
      a login with a name and a password, even one that then fails. */
  predicate Releases(c: Call, id: nat) {
    SessionId(c.cookie) == Some(id) && (c.ReleaseCall? || c.named)
  }

  /** No call of the run issues this ID. */
  predicate NeverIssued(t: Table, calls: seq<Call>, id: nat)
    decreases |calls|
  {
    calls == [] ||
    (&& (Issued(t, calls[0]).Some? ==> Issued(t, calls[0]).value.0 != id)
     && NeverIssued(Step(t, calls[0]), calls[1..], id))
  }

  /** A call leaves every session alone that it does not release, and issues no ID of another
      session. */
  lemma StepTouches(t: Table, c: Call, id: nat)
    requires !Releases(c, id) && id in t
    ensures id in Step(t, c) && Step(t, c)[id] == t[id]
    ensures Issued(t, c).Some? ==> Issued(t, c).value.0 != id
  {
    hide SessionId;
    if c.RequestCall? {
      FirstFreeIsFree(c.draws, Released(t, c.cookie));
    }
  }

  /** So does every run. */
  lemma {:induction false} RunTouches(t: Table, calls: seq<Call>, id: nat)
    requires id in t
    requires forall c | c in calls :: !Releases(c, id)
    ensures id in Run(t, calls) && Run(t, calls)[id] == t[id]
    ensures NeverIssued(t, calls, id)
    decreases |calls|
  {
    hide SessionId, Step, Releases;
    if calls != [] {
      assert calls[0] in calls;
      forall c | c in calls[1..]
        ensures !Releases(c, id)
      {
        assert c in calls;
      }
      StepTouches(t, calls[0], id);
      RunTouches(Step(t, calls[0]), calls[1..], id);
    }
  }

  /** A released ID is gone. */
  lemma StepReleases(t: Table, c: Call, id: nat)
    requires Releases(c, id) || id !in t
    requires Issued(t, c).Some? ==> Issued(t, c).value.0 != id
    ensures id !in Step(t, c)
  {
    hide SessionId, Issued;
  }

  /** And stays so until a login issues it again. */
  lemma {:induction false} StaysReleased(t: Table, calls: seq<Call>, id: nat)
    requires id !in t && NeverIssued(t, calls, id)
    ensures id !in Run(t, calls)
    decreases |calls|
  {
    hide SessionId, Step;
    if calls != [] {
      StepReleases(t, calls[0], id);
      StaysReleased(Step(t, calls[0]), calls[1..], id);
    }
  }

  /** Over a run that does not issue it again, a session is there at the end, and unchanged, if
      and only if no call released it. */
  lemma {:induction false} KeptUntilReleased(t: Table, calls: seq<Call>, id: nat)
    requires id in t && NeverIssued(t, calls, id)
    ensures id in Run(t, calls) <==> forall c | c in calls :: !Releases(c, id)
    ensures id in Run(t, calls) ==> Run(t, calls)[id] == t[id]
    decreases |calls|
  {
    hide SessionId, Step, Releases, Issued;
    if calls != [] {
      var c, rest := calls[0], calls[1..];
      assert c in calls && forall d :: d in calls <==> d == c || d in rest;
      if Releases(c, id) {
        StepReleases(t, c, id);
        StaysReleased(Step(t, c), rest, id);
      } else {
        StepTouches(t, c, id);
        KeptUntilReleased(Step(t, c), rest, id);
      }
    }
  }

  /** From the login that issues it, over any run that does not issue it again, an ID verifies
      at exactly the levels up to that of the user's permissions as long as no call releases
      it, and at no level from then on. */
  lemma VerifiesUntilReleased(t: Table, before: string, u: nat, p: nat, draws: seq<nat>, i: nat,
                              calls: seq<Call>, cookie: string, level: int)
    requires u <= 0xFFFF_FFFF_FFFF_FFFF && p <= 0xFFFF_FFFF
    requires i < |draws| && Free(t, before, draws[i]) && forall j | 0 <= j < i :: !Free(t, before, draws[j])
    requires SessionId(cookie) == Some(draws[i])
    requires NeverIssued(Step(t, LoginOf(before, u, p, draws)), calls, draws[i])
    ensures Verify(Run(Step(t, LoginOf(before, u, p, draws)), calls), cookie, level) <==>
            level <= Granted(p) && forall c | c in calls :: !Releases(c, draws[i])
  {
    hide SessionId, Run, Releases, NeverIssued, Free, Issued, Step, LoginOf;
    LoginIssues(t, before, u, p, draws, i);
    KeptUntilReleased(Step(t, LoginOf(before, u, p, draws)), calls, draws[i]);
  }

  /** While no call releases it none can issue it again, so it verifies. */
  lemma UnreleasedVerifies(t: Table, before: string, u: nat, p: nat, draws: seq<nat>, i: nat,
                           calls: seq<Call>, cookie: string, level: int)
    requires u <= 0xFFFF_FFFF_FFFF_FFFF && p <= 0xFFFF_FFFF
    requires i < |draws| && Free(t, before, draws[i]) && forall j | 0 <= j < i :: !Free(t, before, draws[j])
    requires SessionId(cookie) == Some(draws[i])
    requires forall c | c in calls :: !Releases(c, draws[i])
    ensures Verify(Run(Step(t, LoginOf(before, u, p, draws)), calls), cookie, level) <==> level <= Granted(p)
  {
    hide SessionId, Run, Releases, Free, Issued, Step, LoginOf;
    LoginIssues(t, before, u, p, draws, i);
    RunTouches(Step(t, LoginOf(before, u, p, draws)), calls, draws[i]);
  }
}
