/** coreapi/authentication.c: credentials and the four-step lookup. */
module AuthLookup {
  import opened Wrappers

  datatype AuthInfo = AuthInfo(username: Option<string>, userid: Option<string>, passwd: Option<string>,
                               ha1: Option<string>, realm: Option<string>, domain: Option<string>)

  // ---- realms, up to quotes. The source copies a realm into 127 bytes; longer realms are not modelled.

  function FirstQuote(s: string): (n: nat)
    ensures n <= |s| && (n < |s| ==> s[n] == '"') && '"' !in s[..n]
  {
    if s == [] || s[0] == '"' then 0
    else
      var n := 1 + FirstQuote(s[1..]);
      assert s[..n] == [s[0]] + s[1..][..n - 1];
      n
  }

  // A leading quote is skipped, and the rest ends at the next quote.
  function RemoveQuotes(s: string): (r: string)
    ensures '"' !in r
  {
    var t := if s != [] && s[0] == '"' then s[1..] else s;
    t[..FirstQuote(t)]
  }

  predicate RealmMatch(a: Option<string>, b: Option<string>) {
    match (a, b)
    case (None, None) => true
    case (Some(x), Some(y)) => x == y || RemoveQuotes(x) == RemoveQuotes(y)
    case _ => false
  }

  // Matching is equality of the stripped forms, so it is an equivalence; a quoted realm matches the bare one.
  lemma RealmMatchIsEquivalence(a: Option<string>, b: Option<string>, c: Option<string>, bare: string)
    requires '"' !in bare
    ensures RealmMatch(a, a) && (RealmMatch(a, b) <==> RealmMatch(b, a))
    ensures RealmMatch(a, b) && RealmMatch(b, c) ==> RealmMatch(a, c)
    ensures a.Some? && b.Some? ==> (RealmMatch(a, b) <==> RemoveQuotes(a.value) == RemoveQuotes(b.value))
    ensures RealmMatch(Some("\"" + bare + "\""), Some(bare))
  {
    var quoted := "\"" + bare + "\"";
    assert quoted[1..] == bare + "\"";
    assert FirstQuote(bare) == |bare|;
    QuoteAt(bare);
    assert (bare + "\"")[..|bare|] == bare && bare[..|bare|] == bare;
  }

  lemma {:induction false} QuoteAt(bare: string)
    requires '"' !in bare
    ensures FirstQuote(bare + "\"") == |bare|
  {
    if bare != [] {
      assert (bare + "\"")[1..] == bare[1..] + "\"";
      assert bare[0] in bare;
      QuoteAt(bare[1..]);
    }
  }

  /** x is the text of a realm s: after a leading quote, if there is one, up to the next quote or the end. */
  predicate TextOf(s: string, x: string) {
    var t := if s != "" && s[0] == '"' then s[1..] else s;
    '"' !in x && x <= t && (t == x || t[|x|] == '"')
  }

  lemma TextIsStripped(s: string, x: string)
    ensures TextOf(s, x) <==> RemoveQuotes(s) == x
  {
    var t := if s != "" && s[0] == '"' then s[1..] else s;
    var n := FirstQuote(t);
  }

  // Realms match exactly when both are absent or they have the same text.
  lemma RealmMatchExactly(a: Option<string>, b: Option<string>)
    ensures RealmMatch(a, b) <==>
              (a.None? && b.None?) || (a.Some? && b.Some? && exists x :: TextOf(a.value, x) && TextOf(b.value, x))
  {
    if a.Some? && b.Some? {
      TextIsStripped(a.value, RemoveQuotes(a.value));
      forall x ensures (TextOf(a.value, x) <==> RemoveQuotes(a.value) == x) && (TextOf(b.value, x) <==> RemoveQuotes(b.value) == x) {
        TextIsStripped(a.value, x);
        TextIsStripped(b.value, x);
      }
    }
  }

  /** A quote-free realm as servers write it: bare, quoted, or quoted with anything after the closing quote. */
  predicate Writes(s: string, x: string) { s == x || s == "\"" + x + "\"" || "\"" + x + "\"" <= s }

  // Quotes, and whatever follows the closing one, make no difference; every other character does.
  lemma QuotesDoNotMatter(x: string, y: string, s: string, t: string)
    requires '"' !in x && '"' !in y && Writes(s, x) && Writes(t, y)
    ensures RealmMatch(Some(s), Some(t)) <==> x == y
  {
    WrittenText(s, x);
    WrittenText(t, y);
    TextIsStripped(s, x);
    TextIsStripped(t, y);
  }

  lemma WrittenText(s: string, x: string)
    requires '"' !in x && Writes(s, x)
    ensures TextOf(s, x)
  {
    if s == x {
      assert s != "" ==> s[0] in x;
    } else {
      var quoted := "\"" + x + "\"";
      assert quoted[0] == '"' && s[..|quoted|] == quoted;
      assert s[1..][..|x|] == quoted[1..][..|x|] == x && s[1..][|x|] == quoted[|x| + 1];
    }
  }

  // ---- one step of the lookup

  datatype Step = ByRealm(realm: string) | ByRealmAndDomain(realm: string, domain: string) | ByDomain(domain: string) | ByUser

  /** The step that find_auth_info performs for the arguments it is given. */
  function StepFor(realm: Option<string>, domain: Option<string>): Step {
    if realm.Some? && domain.Some? then ByRealmAndDomain(realm.value, domain.value)
    else if realm.Some? then ByRealm(realm.value)
    else if domain.Some? then ByDomain(domain.value)
    else ByUser
  }

  predicate Fits(a: AuthInfo, username: Option<string>, step: Step) {
    && username.Some? && a.username == username
    && match step
       case ByRealm(realm) => a.realm.Some? && RealmMatch(Some(realm), a.realm)
       case ByRealmAndDomain(realm, domain) => a.realm.Some? && RealmMatch(Some(realm), a.realm) && a.domain == Some(domain)
       case ByDomain(domain) => a.domain == Some(domain) && a.ha1.None?
       case ByUser => a.ha1.None?
  }

  // What each step asks of an entry whose realm is written x, in terms of the texts.
  lemma FitsExactly(a: AuthInfo, username: Option<string>, realm: string, x: string, y: string, domain: string)
    requires '"' !in x && '"' !in y && Writes(realm, x) && (a.realm.Some? ==> Writes(a.realm.value, y))
    ensures var user := username.Some? && a.username == username;
      && (Fits(a, username, ByRealm(realm)) <==> user && a.realm.Some? && x == y)
      && (Fits(a, username, ByRealmAndDomain(realm, domain)) <==> user && a.realm.Some? && x == y && a.domain == Some(domain))
      && (Fits(a, username, ByDomain(domain)) <==> user && a.domain == Some(domain) && a.ha1 == None)
      && (Fits(a, username, ByUser) <==> user && a.ha1 == None)
  {
    hide RealmMatch, Writes;
    if a.realm.Some? { QuotesDoNotMatter(x, y, realm, a.realm.value); }
  }

  ghost predicate First(list: seq<AuthInfo>, username: Option<string>, step: Step, i: nat) {
    i < |list| && Fits(list[i], username, step) && forall j :: 0 <= j < i ==> !Fits(list[j], username, step)
  }

  ghost predicate Only(list: seq<AuthInfo>, username: Option<string>, step: Step, i: nat) {
    i < |list| && Fits(list[i], username, step) && forall j :: 0 <= j < |list| && j != i ==> !Fits(list[j], username, step)
  }

  /** The entry a step selects: the only one for a realm alone, the first one otherwise. */
  ghost predicate Selects(list: seq<AuthInfo>, username: Option<string>, step: Step, i: nat) {
    if step.ByRealm? then Only(list, username, step, i) else First(list, username, step, i)
  }

  function FirstFrom(list: seq<AuthInfo>, username: Option<string>, step: Step, i: nat): (r: nat)
    requires i <= |list|
    ensures i <= r <= |list| && (r < |list| ==> Fits(list[r], username, step))
    ensures forall j :: i <= j < r ==> !Fits(list[j], username, step)
    decreases |list| - i
  {
    if i == |list| || Fits(list[i], username, step) then i else FirstFrom(list, username, step, i + 1)
  }

  function Lookup(list: seq<AuthInfo>, username: Option<string>, step: Step): (r: Option<nat>)
    ensures r.Some? ==> Selects(list, username, step, r.value)
    ensures r.None? ==> forall i :: !Selects(list, username, step, i)
  {
    var i := FirstFrom(list, username, step, 0);
    if i == |list| then None
    else if step.ByRealm? && FirstFrom(list, username, step, i + 1) < |list| then None
    else Some(i)
  }

  lemma SelectsIsUnique(list: seq<AuthInfo>, username: Option<string>, step: Step, i: nat)
    requires Selects(list, username, step, i)
    ensures Lookup(list, username, step) == Some(i)
  {
    assert !Lookup(list, username, step).None?;
    var j := Lookup(list, username, step).value;
    assert Selects(list, username, step, j);
    if step.ByRealm? { assert j == i; } else { assert !(j < i) && !(i < j); }
  }

  // The loop of the source. Positions stand for the returned pointers.
  method FindAuthInfo(list: seq<AuthInfo>, username: Option<string>, realm: Option<string>, domain: Option<string>)
    returns (found: Option<nat>)
    ensures found == Lookup(list, username, StepFor(realm, domain))
  {
    hide RealmMatch;
    var ret: Option<nat> := None;
    ghost var step := StepFor(realm, domain);
    var n := 0;
    while n < |list|
      invariant 0 <= n <= |list|
      invariant !step.ByRealm? ==> ret == None
      invariant ret.None? ==> forall j :: 0 <= j < n ==> !Fits(list[j], username, step)
      invariant ret.Some? ==> ret.value < n && Fits(list[ret.value], username, step)
      invariant ret.Some? ==> forall j :: 0 <= j < n && j != ret.value ==> !Fits(list[j], username, step)
    {
      var pinfo := list[n];
      if username.Some? && pinfo.username == username {
        if realm.Some? && domain.Some? {
          if pinfo.realm.Some? && RealmMatch(realm, pinfo.realm) && pinfo.domain == domain {
            SelectsIsUnique(list, username, step, n);
            return Some(n);
          }
        } else if realm.Some? {
          if pinfo.realm.Some? && RealmMatch(realm, pinfo.realm) {
            if ret.Some? {
              assert forall i :: !Only(list, username, step, i);
              return None;
            }
            ret := Some(n);
          }
        } else if domain.Some? && pinfo.domain == domain && pinfo.ha1.None? {
          SelectsIsUnique(list, username, step, n);
          return Some(n);
        } else if domain.None? && pinfo.ha1.None? {
          SelectsIsUnique(list, username, step, n);
          return Some(n);
        }
      }
      n := n + 1;
    }
    if ret.Some? { SelectsIsUnique(list, username, step, ret.value); }
    found := ret;
  }

  // ---- the ladder

  /** Realm alone, then realm and domain, then domain, then the user name. */
  function Ladder(list: seq<AuthInfo>, realm: Option<string>, username: Option<string>, domain: Option<string>): (r: Option<nat>)
    ensures r.Some? ==> r.value < |list| && list[r.value].username == username && username.Some?
  {
    var first := if realm.Some? then Lookup(list, username, ByRealm(realm.value)) else None;
    var second := if realm.Some? && domain.Some? then Lookup(list, username, ByRealmAndDomain(realm.value, domain.value)) else None;
    var third := if domain.Some? then Lookup(list, username, ByDomain(domain.value)) else None;
    if first.Some? then first else if second.Some? then second else if third.Some? then third
    else Lookup(list, username, ByUser)
  }

  method CoreFindAuthInfo(list: seq<AuthInfo>, realm: Option<string>, username: Option<string>, domain: Option<string>)
    returns (ai: Option<nat>)
    ensures ai == Ladder(list, realm, username, domain)
  {
    ai := None;
    if realm.Some? {
      ai := FindAuthInfo(list, username, realm, None);
      if ai.None? && domain.Some? {
        ai := FindAuthInfo(list, username, realm, domain);
      }
    }
    if ai.None? && domain.Some? {
      ai := FindAuthInfo(list, username, None, domain);
    }
    if ai.None? {
      ai := FindAuthInfo(list, username, None, None);
    }
  }

  // The ladder without the functions that compute it: the result is position i exactly when i is selected by one of the
  // steps that apply and nothing is selected by the steps before it.
  lemma LadderMeaning(list: seq<AuthInfo>, realm: Option<string>, username: Option<string>, domain: Option<string>, i: nat)
    ensures Ladder(list, realm, username, domain) == Some(i) <==>
      var none1 := realm.None? || forall j :: !Only(list, username, ByRealm(realm.value), j);
      var none2 := realm.None? || domain.None? || forall j :: !First(list, username, ByRealmAndDomain(realm.value, domain.value), j);
      var none3 := domain.None? || forall j :: !First(list, username, ByDomain(domain.value), j);
      || (realm.Some? && Only(list, username, ByRealm(realm.value), i))
      || (none1 && realm.Some? && domain.Some? && First(list, username, ByRealmAndDomain(realm.value, domain.value), i))
      || (none1 && none2 && domain.Some? && First(list, username, ByDomain(domain.value), i))
      || (none1 && none2 && none3 && First(list, username, ByUser, i))
  {
    if realm.Some? { LookupMeaning(list, username, ByRealm(realm.value), i); }
    if realm.Some? && domain.Some? { LookupMeaning(list, username, ByRealmAndDomain(realm.value, domain.value), i); }
    if domain.Some? { LookupMeaning(list, username, ByDomain(domain.value), i); }
    LookupMeaning(list, username, ByUser, i);
  }

  lemma LookupMeaning(list: seq<AuthInfo>, username: Option<string>, step: Step, i: nat)
    ensures Lookup(list, username, step) == Some(i) <==> Selects(list, username, step, i)
    ensures Lookup(list, username, step).None? <==> forall j :: !Selects(list, username, step, j)
    ensures step.ByRealm? ==> ((forall j :: !Selects(list, username, step, j)) <==> forall j :: !Only(list, username, step, j))
    ensures !step.ByRealm? ==> ((forall j :: !Selects(list, username, step, j)) <==> forall j :: !First(list, username, step, j))
  {
    if Selects(list, username, step, i) { SelectsIsUnique(list, username, step, i); }
    forall j ensures step.ByRealm? ==> Selects(list, username, step, j) == Only(list, username, step, j) {}
    forall j ensures !step.ByRealm? ==> Selects(list, username, step, j) == First(list, username, step, j) {}
  }

  // Two realms of one user: each is found by its own name, quoted or not, and a third realm finds neither.
  lemma RealmsApart(user: string, a: AuthInfo, b: AuthInfo, x: string, y: string, s: string)
    requires '"' !in x && '"' !in y && x != y && Writes(s, y)
    requires a.username == b.username == Some(user) && a.realm == Some(x) && b.realm == Some(y) && a.ha1.Some? && b.ha1.Some?
    ensures Ladder([a, b], Some(s), Some(user), None) == Some(1)
    ensures Ladder([a], Some(s), Some(user), None) == None
  {
    QuotesDoNotMatter(y, x, s, x);
    QuotesDoNotMatter(y, y, s, y);
    assert Only([a, b], Some(user), ByRealm(s), 1);
    SelectsIsUnique([a, b], Some(user), ByRealm(s), 1);
  }
}
