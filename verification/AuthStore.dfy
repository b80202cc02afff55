/** coreapi/authentication.c: adding, replacing and removing credentials, and their sections in the configuration file. */
module AuthStore {
  import opened Wrappers
  import opened AuthLookup

  // ---- the list

  function Without(list: seq<AuthInfo>, i: nat): (r: seq<AuthInfo>)
    requires i < |list|
    ensures |r| == |list| - 1
    ensures forall j :: 0 <= j < |r| ==> r[j] == if j < i then list[j] else list[j + 1]
  {
    list[..i] + list[i + 1..]
  }

  /** The position that adding replaces: what the ladder finds for the new key, if it has the same domain. */
  function Replaced(list: seq<AuthInfo>, info: AuthInfo): (r: Option<nat>)
    ensures r.Some? ==> r.value < |list| && list[r.value].domain == info.domain
  {
    match Ladder(list, info.realm, info.username, info.domain)
    case None => None
    case Some(i) => if info.domain.Some? && list[i].domain == info.domain then Some(i) else None
  }

  predicate HasSecret(a: AuthInfo) { a.ha1.Some? || a.passwd.Some? }

  function AddTo(list: seq<AuthInfo>, info: AuthInfo): seq<AuthInfo> {
    if !HasSecret(info) then list
    else
      match Replaced(list, info)
      case None => list + [info]
      case Some(i) => Without(list, i) + [info]
  }

  function RemoveFrom(list: seq<AuthInfo>, info: AuthInfo): seq<AuthInfo> {
    match Ladder(list, info.realm, info.username, info.domain)
    case None => list
    case Some(i) => Without(list, i)
  }

  // For credentials of any shape, realm or domain missing included. i is what the ladder finds for the new one: it makes way
  // when both have the same domain.
  lemma AddExactly(list: seq<AuthInfo>, info: AuthInfo)
    ensures info.ha1 == None && info.passwd == None ==> AddTo(list, info) == list
    ensures info.ha1.Some? || info.passwd.Some? ==>
              match Ladder(list, info.realm, info.username, info.domain)
              case Some(i) =>
                if info.domain.Some? && list[i].domain == info.domain then AddTo(list, info) == list[..i] + list[i + 1..] + [info]
                else AddTo(list, info) == list + [info]
              case None => AddTo(list, info) == list + [info]
  {
  }

  // Removing takes out what the ladder finds, whatever its domain, and nothing else.
  lemma RemoveExactly(list: seq<AuthInfo>, info: AuthInfo)
    ensures match Ladder(list, info.realm, info.username, info.domain)
            case Some(i) => RemoveFrom(list, info) == list[..i] + list[i + 1..]
            case None => RemoveFrom(list, info) == list
  {
  }

  // A credential given by its user name alone removes the user's first entry without ha1, if there is one.
  lemma RemoveByUser(list: seq<AuthInfo>, info: AuthInfo, i: nat)
    requires info.username.Some? && info.realm == None && info.domain == None && i <= |list|
    requires forall j :: 0 <= j < i ==> list[j].username != info.username || list[j].ha1.Some?
    requires i < |list| ==> list[i].username == info.username && list[i].ha1 == None
    ensures RemoveFrom(list, info) == if i < |list| then list[..i] + list[i + 1..] else list
  {
    if i < |list| { SelectsIsUnique(list, info.username, ByUser, i); }
  }

  // ---- keys

  predicate FullKey(a: AuthInfo) { a.username.Some? && a.realm.Some? && a.domain.Some? }

  predicate SameKey(a: AuthInfo, b: AuthInfo) {
    FullKey(a) && FullKey(b) && a.username == b.username && RealmMatch(a.realm, b.realm) && a.domain == b.domain
  }

  predicate Unique(list: seq<AuthInfo>) { forall i, j :: 0 <= i < j < |list| ==> !SameKey(list[i], list[j]) }

  lemma SameKeyJoins(key: AuthInfo, a: AuthInfo, b: AuthInfo)
    ensures SameKey(key, a) && SameKey(key, b) ==> SameKey(a, b) && SameKey(b, a)
    ensures SameKey(key, a) <==> SameKey(a, key)
  {
  }

  // A stored full key is found by the ladder, whatever else is stored.
  lemma LadderFindsKey(list: seq<AuthInfo>, info: AuthInfo, i: nat)
    requires Unique(list) && i < |list| && SameKey(info, list[i])
    ensures Ladder(list, info.realm, info.username, info.domain) == Some(i)
  {
    var realm, both := ByRealm(info.realm.value), ByRealmAndDomain(info.realm.value, info.domain.value);
    assert Fits(list[i], info.username, realm);
    if Only(list, info.username, realm, i) {
      SelectsIsUnique(list, info.username, realm, i);
    } else {
      assert forall j :: !Only(list, info.username, realm, j);
      forall j | 0 <= j < |list| && j != i ensures !Fits(list[j], info.username, both) {
        SameKeyJoins(info, list[i], list[j]);
      }
      SelectsIsUnique(list, info.username, both, i);
    }
  }

  // Adding an existing key replaces it; removing a stored key deletes exactly that entry.
  lemma StoredKey(list: seq<AuthInfo>, info: AuthInfo, i: nat)
    requires Unique(list) && i < |list| && SameKey(info, list[i])
    ensures HasSecret(info) ==> AddTo(list, info) == Without(list, i) + [info]
    ensures RemoveFrom(list, info) == Without(list, i)
  {
    LadderFindsKey(list, info, i);
  }

  lemma WithoutKeepsUnique(list: seq<AuthInfo>, i: nat)
    requires Unique(list) && i < |list|
    ensures Unique(Without(list, i))
    ensures forall a <- Without(list, i) :: a in list
  {
  }

  lemma AppendKeepsUnique(list: seq<AuthInfo>, info: AuthInfo)
    requires Unique(list) && forall a <- list :: !SameKey(a, info)
    ensures Unique(list + [info])
  {
  }

  // The new key is not among what adding keeps.
  lemma KeptHasOtherKeys(list: seq<AuthInfo>, info: AuthInfo)
    requires Unique(list)
    ensures var kept := if Replaced(list, info).Some? then Without(list, Replaced(list, info).value) else list;
            Unique(kept) && forall a <- kept :: !SameKey(a, info)
  {
    var r := Replaced(list, info);
    if r.Some? { WithoutKeepsUnique(list, r.value); }
    forall i | 0 <= i < |list| && SameKey(list[i], info)
      ensures r == Some(i)
    {
      SameKeyJoins(info, list[i], list[i]);
      LadderFindsKey(list, info, i);
    }
  }

  lemma AddKeepsUnique(list: seq<AuthInfo>, info: AuthInfo)
    requires Unique(list)
    ensures Unique(AddTo(list, info))
  {
    hide SameKey, Replaced;
    KeptHasOtherKeys(list, info);
    AppendKeepsUnique(if Replaced(list, info).Some? then Without(list, Replaced(list, info).value) else list, info);
  }

  lemma RemoveKeepsUnique(list: seq<AuthInfo>, info: AuthInfo)
    requires Unique(list)
    ensures Unique(RemoveFrom(list, info))
  {
    match Ladder(list, info.realm, info.username, info.domain)
    case None =>
    case Some(i) => WithoutKeepsUnique(list, i);
  }

  // ---- what a key that is not stored does: the later steps of the ladder still find something

  predicate Stored(list: seq<AuthInfo>, info: AuthInfo) { exists i :: 0 <= i < |list| && SameKey(info, list[i]) }

  ghost predicate OneOfRealm(list: seq<AuthInfo>, info: AuthInfo)
    requires info.realm.Some?
  {
    exists i: nat :: Only(list, info.username, ByRealm(info.realm.value), i)
  }

  // Adding a key that is not stored appends it, unless another realm of the same domain is stored without ha1 and the
  // new realm does not identify a single entry: then that other entry is lost.
  lemma AddNewKey(list: seq<AuthInfo>, info: AuthInfo)
    requires HasSecret(info) && FullKey(info) && !Stored(list, info)
    ensures AddTo(list, info) == list + [info] <==>
              OneOfRealm(list, info) || forall a <- list :: !Fits(a, info.username, ByDomain(info.domain.value))
  {
    var realm, both := ByRealm(info.realm.value), ByRealmAndDomain(info.realm.value, info.domain.value);
    forall j | 0 <= j < |list| ensures !Fits(list[j], info.username, both) {
      assert !SameKey(info, list[j]);
    }
    assert Replaced(list, info).None? <==> AddTo(list, info) == list + [info];
    if OneOfRealm(list, info) {
      var i: nat :| Only(list, info.username, realm, i);
      SelectsIsUnique(list, info.username, realm, i);
      assert !Fits(list[i], info.username, both);
    } else {
      assert Lookup(list, info.username, realm).None?;
      assert Lookup(list, info.username, both).None?;
      ReplacedByDomain(list, info);
    }
  }

  lemma ReplacedByDomain(list: seq<AuthInfo>, info: AuthInfo)
    requires info.domain.Some?
    requires info.realm.Some? ==> Lookup(list, info.username, ByRealm(info.realm.value)).None?
    requires info.realm.Some? ==> Lookup(list, info.username, ByRealmAndDomain(info.realm.value, info.domain.value)).None?
    ensures Replaced(list, info).None? <==> forall a <- list :: !Fits(a, info.username, ByDomain(info.domain.value))
  {
    var third := ByDomain(info.domain.value);
    match Lookup(list, info.username, third)
    case Some(i) => assert list[i] in list;
    case None => NoneFits(list, info.username, third);
  }

  lemma NoneFits(list: seq<AuthInfo>, username: Option<string>, step: Step)
    requires !step.ByRealm? && Lookup(list, username, step).None?
    ensures forall a <- list :: !Fits(a, username, step)
  {
    var n := FirstFrom(list, username, step, 0);
    assert n == |list|;
  }

  // Removing a key that is not stored leaves the list alone exactly when its realm does not identify a single entry and
  // no entry of the user lacks ha1; otherwise some other entry is deleted.
  lemma RemoveUnstoredKey(list: seq<AuthInfo>, info: AuthInfo)
    requires FullKey(info) && !Stored(list, info)
    ensures RemoveFrom(list, info) == list <==>
              !OneOfRealm(list, info) && forall a <- list :: !Fits(a, info.username, ByUser)
  {
    var realm, both := ByRealm(info.realm.value), ByRealmAndDomain(info.realm.value, info.domain.value);
    forall j | 0 <= j < |list| ensures !Fits(list[j], info.username, both) {
      assert !SameKey(info, list[j]);
    }
    if OneOfRealm(list, info) {
      var i: nat :| Only(list, info.username, realm, i);
      SelectsIsUnique(list, info.username, realm, i);
    } else {
      assert Lookup(list, info.username, realm).None? && Lookup(list, info.username, both).None?;
      match Lookup(list, info.username, ByUser)
      case Some(i) => assert list[i] in list;
      case None =>
        NoneFits(list, info.username, ByUser);
        assert forall a <- list :: !Fits(a, info.username, ByDomain(info.domain.value)) by {
          forall a | a in list ensures Fits(a, info.username, ByDomain(info.domain.value)) ==> Fits(a, info.username, ByUser) {}
        }
    }
  }

  // A list where removing an unknown credential deletes another one: the only entry of the user has no ha1.
  lemma UnknownRemovalDeletes()
    ensures var stored := AuthInfo(Some("alice"), None, Some("secret"), None, Some("home"), Some("example.org"));
            var unknown := AuthInfo(Some("alice"), None, None, None, Some("work"), Some("example.com"));
            !Stored([stored], unknown) && RemoveFrom([stored], unknown) == []
  {
    var stored := AuthInfo(Some("alice"), None, Some("secret"), None, Some("home"), Some("example.org"));
    var unknown := AuthInfo(Some("alice"), None, None, None, Some("work"), Some("example.com"));
    assert Fits([stored][0], unknown.username, ByUser) && [stored][0] in [stored];
    RemoveUnstoredKey([stored], unknown);
    assert RemoveFrom([stored], unknown) != [stored];
  }

  // ---- any sequence of operations

  /** Writing the configuration file also fills in the ha1 of entries, which the ladder looks at. */
  datatype Action = Add(info: AuthInfo) | Remove(info: AuthInfo) | Clear | FillHa1(i: nat, ha1: string)

  function Apply(list: seq<AuthInfo>, act: Action): seq<AuthInfo> {
    match act
    case Add(info) => AddTo(list, info)
    case Remove(info) => RemoveFrom(list, info)
    case Clear => []
    case FillHa1(i, ha1) => if i < |list| then list[i := list[i].(ha1 := Some(ha1))] else list
  }

  function ApplyAll(list: seq<AuthInfo>, acts: seq<Action>): seq<AuthInfo> {
    if acts == [] then list else Apply(ApplyAll(list, acts[..|acts| - 1]), acts[|acts| - 1])
  }

  lemma {:induction false} KeysStayUnique(list: seq<AuthInfo>, acts: seq<Action>)
    requires Unique(list)
    ensures Unique(ApplyAll(list, acts))
  {
    if acts != [] {
      var before := ApplyAll(list, acts[..|acts| - 1]);
      KeysStayUnique(list, acts[..|acts| - 1]);
      match acts[|acts| - 1]
      case Add(info) => AddKeepsUnique(before, info);
      case Remove(info) => RemoveKeepsUnique(before, info);
      case Clear =>
      case FillHa1(i, ha1) => SameKeysUnique(before, Apply(before, FillHa1(i, ha1)));
    }
  }

  lemma SameKeysUnique(list: seq<AuthInfo>, list': seq<AuthInfo>)
    requires Unique(list) && |list'| == |list|
    requires forall i :: 0 <= i < |list| ==>
               list'[i].username == list[i].username && list'[i].realm == list[i].realm && list'[i].domain == list[i].domain
    ensures Unique(list')
  {
    forall i, j | 0 <= i < j < |list| ensures !SameKey(list'[i], list'[j]) {
      assert !SameKey(list[i], list[j]);
    }
  }

  // ---- sections of the configuration file

  datatype Field = Username | UserId | Ha1 | Passwd | Realm | Domain

  type Section = map<Field, string>

  /** The auth_info_0, auth_info_1, ... sections, by number. */
  type Config = map<nat, Section>

  // An empty value removes the item; a first item creates the section.
  function SetString(config: Config, pos: nat, f: Field, value: string): Config {
    if pos in config then config[pos := if value == "" then config[pos] - {f} else config[pos][f := value]]
    else if value == "" then config
    else config[pos := map[f := value]]
  }

  function SetField(config: Config, pos: nat, f: Field, value: Option<string>): Config {
    if value.None? then config else SetString(config, pos, f, value.value)
  }

  function GetString(config: Config, pos: nat, f: Field): Option<string> {
    if pos in config && f in config[pos] then Some(config[pos][f]) else None
  }

  /** linphone_auth_info_new: empty strings are not kept. */
  function NotEmpty(s: Option<string>): (r: Option<string>)
    ensures r != Some("") && (s != Some("") ==> r == s)
  {
    if s == Some("") then None else s
  }

  function NewAuthInfo(username: Option<string>, userid: Option<string>, passwd: Option<string>,
                       ha1: Option<string>, realm: Option<string>, domain: Option<string>): AuthInfo
  {
    AuthInfo(NotEmpty(username), NotEmpty(userid), NotEmpty(passwd), NotEmpty(ha1), NotEmpty(realm), NotEmpty(domain))
  }

  // What creation and every setter guarantee.
  predicate NoEmptyField(a: AuthInfo) {
    Some("") !in {a.username, a.userid, a.passwd, a.ha1, a.realm, a.domain}
  }

  function ReadConfig(config: Config, pos: nat): Option<AuthInfo> {
    if pos !in config then None
    else Some(NewAuthInfo(GetString(config, pos, Username), GetString(config, pos, UserId), GetString(config, pos, Passwd),
                          GetString(config, pos, Ha1), GetString(config, pos, Realm), GetString(config, pos, Domain)))
  }

  /** The sequence of writes for one credential, from a cleaned section. */
  function WriteFields(config: Config, a: AuthInfo, pos: nat): Config {
    var c1 := SetField(config - {pos}, pos, Username, a.username);
    var c2 := SetField(c1, pos, UserId, a.userid);
    var c3 := if a.ha1.Some? then SetField(c2, pos, Ha1, a.ha1) else SetField(c2, pos, Passwd, a.passwd);
    SetField(SetField(c3, pos, Realm, a.realm), pos, Domain, a.domain)
  }

  /** What reading back gives: the password is not stored beside ha1. */
  function Kept(a: AuthInfo): AuthInfo { if a.ha1.Some? then a.(passwd := None) else a }

  lemma SetFieldEffect(config: Config, pos: nat, f: Field, value: Option<string>)
    requires value != Some("")
    ensures pos in SetField(config, pos, f, value) <==> pos in config || value.Some?
    ensures forall g :: GetString(SetField(config, pos, f, value), pos, g)
                     == if g == f && value.Some? then value else GetString(config, pos, g)
    ensures SetField(config, pos, f, value) - {pos} == config - {pos}
  {
  }

  /** The section holds the entry's fields, and the password only if there is no ha1. */
  predicate SectionOf(config: Config, pos: nat, a: AuthInfo) {
    && pos in config
    && GetString(config, pos, Username) == a.username && GetString(config, pos, UserId) == a.userid
    && GetString(config, pos, Ha1) == a.ha1 && GetString(config, pos, Passwd) == (if a.ha1.Some? then None else a.passwd)
    && GetString(config, pos, Realm) == a.realm && GetString(config, pos, Domain) == a.domain
  }

  lemma WriteThenRead(config: Config, a: AuthInfo, pos: nat)
    requires NoEmptyField(a) && HasSecret(a)
    ensures SectionOf(WriteFields(config, a, pos), pos, a)
    ensures pos in WriteFields(config, a, pos)
    ensures ReadConfig(WriteFields(config, a, pos), pos) == Some(Kept(a))
    ensures WriteFields(config, a, pos) - {pos} == config - {pos}
  {
    hide SetField, GetString;
    var c0 := config - {pos};
    var c1 := SetField(c0, pos, Username, a.username);
    var c2 := SetField(c1, pos, UserId, a.userid);
    var c3 := if a.ha1.Some? then SetField(c2, pos, Ha1, a.ha1) else SetField(c2, pos, Passwd, a.passwd);
    SetFieldEffect(c0, pos, Username, a.username);
    SetFieldEffect(c1, pos, UserId, a.userid);
    if a.ha1.Some? { SetFieldEffect(c2, pos, Ha1, a.ha1); } else { SetFieldEffect(c2, pos, Passwd, a.passwd); }
    SetFieldEffect(c3, pos, Realm, a.realm);
    SetFieldEffect(SetField(c3, pos, Realm, a.realm), pos, Domain, a.domain);
    NothingAt(config, pos);
    assert c0 - {pos} == config - {pos};
  }

  lemma NothingAt(config: Config, pos: nat)
    ensures forall f :: GetString(config - {pos}, pos, f) == None
  {
  }

  // Sections other than pos read as before.
  lemma ReadElsewhere(config: Config, config': Config, pos: nat, i: nat)
    requires config' - {pos} == config - {pos} && i != pos
    ensures i in config' <==> i in config
    ensures ReadConfig(config', i) == ReadConfig(config, i)
    ensures forall f :: GetString(config', i, f) == GetString(config, i, f)
  {
    assert i in config' <==> i in config' - {pos};
    assert i in config <==> i in config - {pos};
    assert i in config ==> (config - {pos})[i] == config[i] && (config' - {pos})[i] == config'[i];
  }

  /** Section i exists exactly for the positions of the list, and reads back as that entry. */
  ghost predicate Persisted(list: seq<AuthInfo>, config: Config) {
    && (forall i: nat :: i in config <==> i < |list|)
    && (forall i :: 0 <= i < |list| ==> SectionOf(config, i, list[i]) && ReadConfig(config, i) == Some(Kept(list[i])))
  }

  lemma KeysElsewhere(config: Config, config': Config, pos: nat)
    requires config' - {pos} == config - {pos}
    ensures forall j <- config' :: j == pos || j in config
  {
    forall j | j in config' && j != pos ensures j in config {
      assert j in config' - {pos};
    }
  }

  /** The sections after number n. */
  function Beyond(config: Config, n: nat): Config { map j | j in config && j > n :: config[j] }

  // Cleaning the sections one after the other.
  lemma BeyondStep(config: Config, config': Config, pos: nat, n: nat)
    requires config' - {pos} == config - {pos} && pos <= n
    ensures Beyond(config', n) == Beyond(config, n)
  {
    forall j | j > n ensures (j in config' <==> j in config) && (j in config ==> config'[j] == config[j]) {
      assert j in config' <==> j in config' - {pos};
      assert j in config <==> j in config - {pos};
      assert j in config ==> (config - {pos})[j] == config[j] && (config' - {pos})[j] == config'[j];
    }
  }

  lemma BeyondAll(config: Config, n: nat)
    requires forall j <- config :: j > n
    ensures Beyond(config, n) == config
  {
  }

  ghost predicate SavedUpTo(list: seq<AuthInfo>, config: Config, n: nat)
    requires n <= |list|
  {
    forall i :: 0 <= i < n ==> i in config && SectionOf(config, i, list[i]) && ReadConfig(config, i) == Some(Kept(list[i]))
  }

  lemma SaveOneMore(list: seq<AuthInfo>, list': seq<AuthInfo>, config: Config, config': Config, n: nat)
    requires n < |list| == |list'| && list'[..n] == list[..n] && SavedUpTo(list, config, n)
    requires config' - {n} == config - {n} && SectionOf(config', n, list'[n]) && ReadConfig(config', n) == Some(Kept(list'[n]))
    ensures SavedUpTo(list', config', n + 1)
  {
    hide ReadConfig;
    forall i | 0 <= i < n ensures i in config' && SectionOf(config', i, list'[i]) && ReadConfig(config', i) == Some(Kept(list'[i])) {
      ReadElsewhere(config, config', n, i);
      assert list'[i] == list'[..n][i] && list[i] == list[..n][i];
    }
  }

  lemma MarkEnd(list: seq<AuthInfo>, config: Config, config': Config)
    requires SavedUpTo(list, config, |list|) && config' == config - {|list|}
    ensures SavedUpTo(list, config', |list|)
  {
    hide ReadConfig;
    forall i | 0 <= i < |list| ensures i in config' && SectionOf(config', i, list[i]) && ReadConfig(config', i) == Some(Kept(list[i])) {
      ReadElsewhere(config, config', |list|, i);
    }
  }

  predicate Storable(list: seq<AuthInfo>) { forall a <- list :: NoEmptyField(a) && HasSecret(a) }

  // ---- restarting: the sections are read in order, and each credential is added again

  function Reload(kept: seq<AuthInfo>): (r: seq<AuthInfo>)
    ensures |r| <= |kept|
  {
    if kept == [] then [] else AddTo(Reload(kept[..|kept| - 1]), kept[|kept| - 1])
  }

  /** An earlier entry of the same user and domain has no ha1, and the realm does not single out one earlier entry. */
  ghost predicate Shadows(before: seq<AuthInfo>, a: AuthInfo) {
    && a.domain.Some? && (exists b <- before :: Fits(b, a.username, ByDomain(a.domain.value)))
    && (a.realm.Some? ==> !OneOfRealm(before, a))
  }

  lemma ReplacedIffShadows(before: seq<AuthInfo>, a: AuthInfo)
    requires forall b <- before :: !SameKey(b, a)
    ensures Replaced(before, a).Some? <==> Shadows(before, a)
  {
    if a.domain.Some? && a.username.Some? {
      if a.realm.Some? {
        var realm, both := ByRealm(a.realm.value), ByRealmAndDomain(a.realm.value, a.domain.value);
        forall j | 0 <= j < |before| ensures !Fits(before[j], a.username, both) {
          assert before[j] in before;
        }
        if OneOfRealm(before, a) {
          var i: nat :| Only(before, a.username, realm, i);
          SelectsIsUnique(before, a.username, realm, i);
          assert !Fits(before[i], a.username, both);
        } else {
          assert Lookup(before, a.username, realm).None? && Lookup(before, a.username, both).None?;
          ReplacedByDomain(before, a);
        }
      } else {
        ReplacedByDomain(before, a);
      }
    }
  }

  ghost predicate NoShadows(kept: seq<AuthInfo>) { forall j :: 0 <= j < |kept| ==> !Shadows(kept[..j], kept[j]) }

  lemma NoShadowsStep(before: seq<AuthInfo>, last: AuthInfo)
    ensures NoShadows(before + [last]) <==> NoShadows(before) && !Shadows(before, last)
  {
    hide Shadows;
    var kept := before + [last];
    forall j | 0 <= j <= |before| ensures kept[..j] == before[..j] && kept[j] == if j < |before| then before[j] else last {}
    assert before[..|before|] == before;
    if NoShadows(kept) {
      assert !Shadows(kept[..|before|], kept[|before|]);
      forall j | 0 <= j < |before| ensures !Shadows(before[..j], before[j]) { assert !Shadows(kept[..j], kept[j]); }
    }
  }

  lemma AddToSize(list: seq<AuthInfo>, info: AuthInfo)
    requires HasSecret(info)
    ensures |AddTo(list, info)| == if Replaced(list, info).Some? then |list| else |list| + 1
  {
  }

  // Reloading gives the stored list back exactly when no entry shadows an earlier one; otherwise credentials are lost.
  lemma {:induction false} ReloadExact(kept: seq<AuthInfo>)
    requires Unique(kept) && forall a <- kept :: HasSecret(a)
    ensures Reload(kept) == kept <==> NoShadows(kept)
    ensures Reload(kept) != kept ==> |Reload(kept)| < |kept|
  {
    hide Shadows, NoShadows, HasSecret, SameKey, Replaced;
    if kept == [] {
      EmptyNoShadows();
    } else {
      var before, last := kept[..|kept| - 1], kept[|kept| - 1];
      assert last in kept && kept == before + [last];
      ReloadExact(before);
      NoShadowsStep(before, last);
      ReplacedIffShadows(before, last);
      AddToSize(Reload(before), last);
    }
  }

  lemma EmptyNoShadows()
    ensures NoShadows([])
  {
  }

  // Such lists arise. k and j share a realm but not a domain, i has j's domain and only a password; once k is removed, the
  // stored list [i, j] reloads as [j].
  predicate Trio(i: AuthInfo, j: AuthInfo, k: AuthInfo) {
    && i.username.Some? && j.username == k.username == i.username
    && i.domain.Some? && j.domain == i.domain && k.domain.Some? && k.domain != i.domain
    && i.realm.None? && j.realm.Some? && k.realm.Some? && RealmMatch(j.realm, k.realm)
    && i.ha1.None? && i.passwd.Some? && j.ha1.Some? && k.ha1.Some?
  }

  lemma TrioAdds(i: AuthInfo, j: AuthInfo, k: AuthInfo)
    requires Trio(i, j, k)
    ensures AddTo([], k) == [k] && AddTo([k], i) == [k, i] && AddTo([k, i], j) == [k, i, j]
  {
    hide RealmMatch;
    ReplacedIffShadows([], k);
    ReplacedIffShadows([k], i);
    assert Replaced([k, i], j).None? by { TrioThird(i, j, k); }
  }

  lemma TrioThird(i: AuthInfo, j: AuthInfo, k: AuthInfo)
    requires Trio(i, j, k)
    ensures Replaced([k, i], j).None?
  {
    RealmMatchIsEquivalence(j.realm, k.realm, j.realm, "");
    assert Only([k, i], j.username, ByRealm(j.realm.value), 0);
    ReplacedIffShadows([k, i], j);
  }

  lemma TrioRemove(i: AuthInfo, j: AuthInfo, k: AuthInfo)
    requires Trio(i, j, k)
    ensures RemoveFrom([k, i, j], k) == [i, j]
  {
    var all, realm, both := [k, i, j], ByRealm(k.realm.value), ByRealmAndDomain(k.realm.value, k.domain.value);
    RealmMatchIsEquivalence(j.realm, k.realm, j.realm, "");
    assert Fits(all[0], k.username, realm) && Fits(all[2], k.username, realm);
    assert forall n: nat :: !Only(all, k.username, realm, n);
    assert Lookup(all, k.username, realm).None?;
    assert First(all, k.username, both, 0);
    SelectsIsUnique(all, k.username, both, 0);
    assert Without(all, 0) == [i, j];
  }

  lemma ReloadLosesCredential(i: AuthInfo, j: AuthInfo, k: AuthInfo)
    requires Trio(i, j, k)
    ensures ApplyAll([], [Add(k), Add(i), Add(j), Remove(k)]) == [i, j]
    ensures Reload([i, j]) == [j]
  {
    hide RemoveFrom;
    TrioAdds(i, j, k);
    TrioRemove(i, j, k);
    ApplyFour(Add(k), Add(i), Add(j), Remove(k));
    ReloadPair(i, j);
  }

  lemma ReloadPair(i: AuthInfo, j: AuthInfo)
    requires i.username.Some? && j.username == i.username && i.domain.Some? && j.domain == i.domain
    requires i.realm.None? && j.realm.Some? && i.ha1.None? && i.passwd.Some? && j.ha1.Some?
    ensures Reload([i, j]) == [j]
  {
    assert [i, j][..1] == [i] && [i][..0] == [];
    ReplacedIffShadows([], i);
    assert Reload([i]) == [i];
    assert Fits([i][0], j.username, ByDomain(j.domain.value)) && !Fits([i][0], j.username, ByRealm(j.realm.value));
    ReplacedIffShadows([i], j);
    assert Replaced([i], j) == Some(0);
  }

  lemma ApplyFour(a: Action, b: Action, c: Action, d: Action)
    ensures ApplyAll([], [a, b, c, d]) == Apply(Apply(Apply(Apply([], a), b), c), d)
  {
    hide Apply;
    assert [a, b, c, d][..3] == [a, b, c] && [a, b, c][..2] == [a, b] && [a, b][..1] == [a] && [a][..0] == [];
    assert ApplyAll([], [a]) == Apply([], a);
    assert ApplyAll([], [a, b]) == Apply(Apply([], a), b);
    assert ApplyAll([], [a, b, c]) == Apply(Apply(Apply([], a), b), c);
  }

  // ---- the core

  class Core {
    var authInfo: seq<AuthInfo>
    var config: Config
    const ready: bool
    const saveAuthInfo: bool
    const storeAuthInfo: bool
    const storeHa1: bool
    const computeHa1: (string, string, string) -> string

    constructor (ready: bool, saveAuthInfo: bool, storeAuthInfo: bool, storeHa1: bool, computeHa1: (string, string, string) -> string)
      ensures authInfo == [] && config == map[]
      ensures this.ready == ready && this.saveAuthInfo == saveAuthInfo && this.storeAuthInfo == storeAuthInfo
      ensures this.storeHa1 == storeHa1 && this.computeHa1 == computeHa1
    {
      authInfo, config := [], map[];
      this.ready, this.saveAuthInfo, this.storeAuthInfo, this.storeHa1 := ready, saveAuthInfo, storeAuthInfo, storeHa1;
      this.computeHa1 := computeHa1;
    }

    ghost predicate Valid()
      reads this
    {
      Storable(authInfo) && forall u, r, p :: computeHa1(u, r, p) != ""
    }

    /** Saving and storing are on and the core is ready. */
    predicate Saving() { ready && saveAuthInfo && storeAuthInfo }

    // Computed before writing, so that no clear text password is stored.
    function WithHa1(a: AuthInfo): AuthInfo {
      if a.ha1.None? && a.realm.Some? && a.passwd.Some? && (a.username.Some? || a.userid.Some?) && storeHa1 then
        a.(ha1 := Some(computeHa1(if a.userid.Some? then a.userid.value else a.username.value, a.realm.value, a.passwd.value)))
      else a
    }

    /** Realm, password and a user are there, and hashing is on. */
    predicate Hashed(a: AuthInfo) {
      storeHa1 && a.realm.Some? && a.passwd.Some? && (a.username.Some? || a.userid.Some?)
    }

    /** after is the entry a once written: an ha1 that was missing is computed from the user id, or the user name if there is
        none; an ha1 that was there stays, and so does everything else. */
    predicate WrittenAs(a: AuthInfo, after: AuthInfo) {
      && after == a.(ha1 := after.ha1)
      && (a.ha1.Some? || !Hashed(a) ==> after.ha1 == a.ha1)
      && (a.ha1.None? && Hashed(a) ==>
            after.ha1 == Some(computeHa1((if a.userid.Some? then a.userid else a.username).value, a.realm.value, a.passwd.value)))
    }

    /** No section has the clear password of a credential that could be hashed or came with its ha1. */
    predicate NoClearPassword(before: seq<AuthInfo>, config: Config) {
      forall i :: 0 <= i < |before| && (before[i].ha1.Some? || Hashed(before[i])) ==> GetString(config, i, Passwd) == None
    }

    /** The entries as writing leaves them: their ha1 is filled in. */
    function Written(list: seq<AuthInfo>): (r: seq<AuthInfo>)
      ensures |r| == |list|
    {
      seq(|list|, i requires 0 <= i < |list| => WithHa1(list[i]))
    }

    // The entry at pos of the list, or nothing to mark the end.
    method WriteConfig(pos: nat)
      requires Valid() && pos <= |authInfo|
      modifies this
      ensures Valid()
      ensures pos == |old(authInfo)| || !storeAuthInfo ==> config == old(config) - {pos} && authInfo == old(authInfo)
      ensures pos < |old(authInfo)| && storeAuthInfo ==>
                && authInfo == old(authInfo)[pos := WithHa1(old(authInfo)[pos])]
                && config == WriteFields(old(config), authInfo[pos], pos)
                && WrittenAs(old(authInfo)[pos], authInfo[pos]) && SectionOf(config, pos, authInfo[pos])
    {
      config := config - {pos};
      if pos < |authInfo| && storeAuthInfo {
        var a := WithHa1(authInfo[pos]);
        assert authInfo[pos] in authInfo;
        authInfo := authInfo[pos := a];
        config := SetField(config, pos, Username, a.username);
        config := SetField(config, pos, UserId, a.userid);
        if a.ha1.Some? {
          config := SetField(config, pos, Ha1, a.ha1);
        } else {
          config := SetField(config, pos, Passwd, a.passwd);
        }
        config := SetField(config, pos, Realm, a.realm);
        config := SetField(config, pos, Domain, a.domain);
        assert config == WriteFields(old(config), a, pos);
        WriteThenRead(old(config), a, pos);
      }
    }

    method WriteAuthInfos()
      requires Valid()
      modifies this
      ensures Valid()
      ensures !ready ==> authInfo == old(authInfo) && config == old(config)
      ensures ready ==> Beyond(config, |authInfo|) == Beyond(old(config), |authInfo|)
      ensures ready && !storeAuthInfo ==> authInfo == old(authInfo) && config == Beyond(old(config), |authInfo|)
      ensures ready && storeAuthInfo ==>
                && authInfo == Written(old(authInfo)) && SavedUpTo(authInfo, config, |authInfo|) && |authInfo| !in config
                && (forall i :: 0 <= i < |authInfo| ==> WrittenAs(old(authInfo)[i], authInfo[i]))
                && NoClearPassword(old(authInfo), config)
      ensures ready && storeAuthInfo && (forall i <- old(config) :: i <= |authInfo|) ==> Persisted(authInfo, config)
    {
      hide WriteFields, ReadConfig, Kept, NoEmptyField, WithHa1, WrittenUpTo, Written, Beyond;
      if !ready { return; }
      AllWritten(authInfo);
      var i := 0;
      while i < |authInfo|
        invariant 0 <= i <= |authInfo| == |old(authInfo)| && Valid()
        invariant storeAuthInfo ==> authInfo == WrittenUpTo(old(authInfo), i)
        invariant storeAuthInfo ==> SavedUpTo(authInfo, config, i)
        invariant !storeAuthInfo ==> authInfo == old(authInfo) && forall j <- config :: j >= i
        invariant forall j <- config :: j < i || j in old(config)
        invariant Beyond(config, |authInfo|) == Beyond(old(config), |authInfo|)
      {
        ghost var before := config;
        ghost var list := authInfo;
        SecretKept(authInfo[i]);
        WriteConfig(i);
        if storeAuthInfo {
          WrittenStep(old(authInfo), list, i);
          WriteThenRead(before, authInfo[i], i);
          SaveOneMore(list, authInfo, before, config, i);
        }
        KeysElsewhere(before, config, i);
        BeyondStep(before, config, i, |authInfo|);
        i := i + 1;
      }
      AllWritten(old(authInfo));
      ghost var before := config;
      WriteConfig(i);
      BeyondStep(before, config, i, |authInfo|);
      if storeAuthInfo {
        MarkEnd(authInfo, before, config);
        HashesHide(old(authInfo), config);
      } else { BeyondAll(config, |authInfo|); }
    }

    function WrittenUpTo(list: seq<AuthInfo>, n: nat): (r: seq<AuthInfo>)
      requires n <= |list|
      ensures |r| == |list|
    {
      seq(|list|, i requires 0 <= i < |list| => if i < n then WithHa1(list[i]) else list[i])
    }

    lemma AllWritten(list: seq<AuthInfo>)
      ensures WrittenUpTo(list, 0) == list && WrittenUpTo(list, |list|) == Written(list)
    {
    }

    lemma WrittenStep(list: seq<AuthInfo>, now: seq<AuthInfo>, n: nat)
      requires n < |list| && now == WrittenUpTo(list, n)
      ensures now[n := WithHa1(now[n])] == WrittenUpTo(list, n + 1)
    {
      hide WithHa1;
    }

    lemma HashesHide(before: seq<AuthInfo>, config: Config)
      requires SavedUpTo(Written(before), config, |before|)
      ensures forall i :: 0 <= i < |before| ==> WrittenAs(before[i], Written(before)[i])
      ensures NoClearPassword(before, config)
    {
      hide ReadConfig, Kept;
    }

    lemma SecretKept(a: AuthInfo)
      requires Valid() && a in authInfo
      ensures NoEmptyField(WithHa1(a)) && HasSecret(WithHa1(a))
    {
    }

    method AddAuthInfo(info: AuthInfo)
      requires Valid() && NoEmptyField(info)
      modifies this
      ensures Valid()
      ensures authInfo == if HasSecret(info) && Saving() then Written(AddTo(old(authInfo), info)) else AddTo(old(authInfo), info)
      ensures !HasSecret(info) || !ready || !saveAuthInfo ==> config == old(config)
      ensures HasSecret(info) && ready && saveAuthInfo && !storeAuthInfo ==> config == Beyond(old(config), |authInfo|)
      ensures HasSecret(info) && Saving() ==> NoClearPassword(AddTo(old(authInfo), info), config)
      ensures Saving() && old(Persisted(authInfo, config)) ==> Persisted(authInfo, config)
      ensures Unique(old(authInfo)) ==> Unique(authInfo)
    {
      hide Unique, NoClearPassword, SavedUpTo;
      ghost var added := AddTo(authInfo, info);
      if Unique(authInfo) {
        AddKeepsUnique(authInfo, info);
        SameKeysUnique(added, Written(added));
      }
      if info.ha1.None? && info.passwd.None? { return; }
      var ai := CoreFindAuthInfo(authInfo, info.realm, info.username, info.domain);
      if ai.Some? && authInfo[ai.value].domain.Some? && info.domain.Some? && authInfo[ai.value].domain == info.domain {
        authInfo := Without(authInfo, ai.value);
      }
      authInfo := authInfo + [info];
      if saveAuthInfo { WriteAuthInfos(); }
    }

    method RemoveAuthInfo(info: AuthInfo)
      requires Valid()
      modifies this
      ensures Valid()
      ensures var left := RemoveFrom(old(authInfo), info);
              authInfo == if |left| < |old(authInfo)| && Saving() then Written(left) else left
      ensures |authInfo| == |old(authInfo)| || !ready || !saveAuthInfo ==> config == old(config)
      ensures |authInfo| < |old(authInfo)| && ready && saveAuthInfo && !storeAuthInfo ==> config == Beyond(old(config), |authInfo|)
      ensures |authInfo| < |old(authInfo)| && Saving() ==> NoClearPassword(RemoveFrom(old(authInfo), info), config)
      ensures Saving() && old(Persisted(authInfo, config)) ==> Persisted(authInfo, config)
      ensures Unique(old(authInfo)) ==> Unique(authInfo)
    {
      hide Unique, NoClearPassword, SavedUpTo;
      ghost var left := RemoveFrom(authInfo, info);
      if Unique(authInfo) {
        RemoveKeepsUnique(authInfo, info);
        SameKeysUnique(left, Written(left));
      }
      var r := CoreFindAuthInfo(authInfo, info.realm, info.username, info.domain);
      if r.Some? {
        authInfo := Without(authInfo, r.value);
        if saveAuthInfo { WriteAuthInfos(); }
      }
    }

    method ClearAllAuthInfo()
      modifies this
      ensures authInfo == []
      ensures forall i: nat :: i in config <==> i in old(config) && i >= |old(authInfo)|
      ensures old(Persisted(authInfo, config)) ==> Persisted(authInfo, config)
    {
      var i := 0;
      while i < |authInfo|
        invariant 0 <= i <= |authInfo| && authInfo == old(authInfo)
        invariant forall j: nat :: j in config <==> j in old(config) && j >= i
      {
        config := config - {i};
        i := i + 1;
      }
      authInfo := [];
    }
  }
}
