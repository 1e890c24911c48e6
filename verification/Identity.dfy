/** Identity configuration: accounts, authentication, and how long an
    Authentication stays authorized while administrators edit accounts. */
module Identity {
  import opened Common

  datatype Assurance = Password | MultiFactor

  predicate AtLeast(given: Assurance, required: Assurance) {
    given == MultiFactor || required == Password
  }

  /** An ideal password hash: it verifies exactly the secret it was made from. */
  datatype Hash = Hash(scheme: string, salt: nat, secret: string)

  const YESCRYPT := "$y$"

  function Crypt(password: string, salt: nat): Hash {
    Hash(YESCRYPT, salt, password)
  }

  const LOCAL_SOURCE := "local"
  const MAX_PASSWORD_BYTES := 511
  const MAX_CREDENTIAL_VERSION: nat := 0xFFFF_FFFF_FFFF_FFFF

  datatype Account = Account(
    source: string,
    subject: string,
    username: string,
    hash: Hash,
    version: nat,
    administrator: bool)

  datatype Configuration = Configuration(version: nat, sources: seq<string>, required: Assurance,
    accounts: seq<Account>)

  datatype Authentication = Authentication(principal: Principal, assurance: Assurance, credentialVersion: nat)

  // ----- what a readable configuration is ---------------------------------------

  predicate LowerOrDigit(c: char) {
    'a' <= c <= 'z' || '0' <= c <= '9' || c == '_' || c == '-'
  }

  predicate ValidUsername(name: string) {
    && 1 <= |name| <= 32
    && ('a' <= name[0] <= 'z' || name[0] == '_')
    && name != "root"
    && forall i :: 1 <= i < |name| ==> LowerOrDigit(name[i])
  }

  /** Characters stand for bytes. */
  predicate ValidPassword(password: string) {
    && 1 <= |password| <= MAX_PASSWORD_BYTES
    && forall i :: 0 <= i < |password| ==> password[i] as int >= 32 && password[i] as int != 127
  }

  /** Up to 32 lower-case letters, digits, underscores and hyphens, beginning
      with a letter or an underscore; root is taken. */
  predicate UsernameText(name: string) {
    && 0 < |name| < 33 && name != "root"
    && name[0] != '-' && !('0' <= name[0] <= '9')
    && forall c :: c in name ==> 'a' <= c <= 'z' || '0' <= c <= '9' || c in {'_', '-'}
  }

  /** Up to 511 bytes, none of them a control character. */
  predicate PasswordText(password: string) {
    && 0 < |password| < 512
    && forall c :: c in password ==> c >= ' ' && c != '\U{007F}'
  }

  lemma CredentialsMeaning(name: string, password: string)
    ensures ValidUsername(name) <==> UsernameText(name)
    ensures ValidPassword(password) <==> PasswordText(password)
  {
    if UsernameText(name) {
      assert forall i :: 0 <= i < |name| ==> name[i] in name;
    }
    if PasswordText(password) {
      assert forall i :: 0 <= i < |password| ==> password[i] in password;
    }
  }

  predicate SoundAccount(sources: seq<string>, a: Account) {
    && a.source in sources && a.subject != "" && ValidUsername(a.username) && a.version != 0
    && a.hash.scheme == "$y$"
  }

  predicate DistinctAccounts(accounts: seq<Account>) {
    forall i, j :: 0 <= i < j < |accounts| && accounts[i].source == accounts[j].source ==>
      accounts[i].subject != accounts[j].subject && accounts[i].username != accounts[j].username
  }

  predicate DistinctSources(sources: seq<string>) {
    && (forall i :: 0 <= i < |sources| ==> sources[i] != "")
    && (forall i, j :: 0 <= i < j < |sources| ==> sources[i] != sources[j])
  }

  predicate Readable(c: Configuration) {
    && c.version == 1
    && DistinctSources(c.sources)
    && (forall i :: 0 <= i < |c.accounts| ==> SoundAccount(c.sources, c.accounts[i]))
    && DistinctAccounts(c.accounts)
  }

  /** `IdentityConfiguration::read` once the text is parsed: two passes over
      hash sets decide exactly readability. */
  method Read(c: Configuration) returns (ok: bool)
    ensures ok == Readable(c)
  {
    if c.version != 1 { return false; }
    var ids: set<string> := {};
    for i := 0 to |c.sources|
      invariant forall s :: s in ids <==> s in c.sources[..i]
      invariant DistinctSources(c.sources[..i])
    {
      assert c.sources[..i + 1] == c.sources[..i] + [c.sources[i]];
      if c.sources[i] == "" || c.sources[i] in ids {
        assert !DistinctSources(c.sources) by {
          if c.sources[i] in ids { var j :| 0 <= j < i && c.sources[..i][j] == c.sources[i]; }
        }
        return false;
      }
      ids := ids + {c.sources[i]};
    }
    assert c.sources[..|c.sources|] == c.sources;
    ok := ReadAccounts(c, ids);
  }

  method ReadAccounts(c: Configuration, ids: set<string>) returns (ok: bool)
    requires c.version == 1 && DistinctSources(c.sources) && forall s :: s in ids <==> s in c.sources
    ensures ok == Readable(c)
  {
    var subjects: set<(string, string)>, usernames: set<(string, string)> := {}, {};
    for i := 0 to |c.accounts|
      invariant forall k :: k in subjects <==>
          exists j :: 0 <= j < i && (c.accounts[j].source, c.accounts[j].subject) == k
      invariant forall k :: k in usernames <==>
          exists j :: 0 <= j < i && (c.accounts[j].source, c.accounts[j].username) == k
      invariant forall j :: 0 <= j < i ==> SoundAccount(c.sources, c.accounts[j])
      invariant DistinctAccounts(c.accounts[..i])
    {
      var a := c.accounts[i];
      if !(a.source in ids && a.subject != "" && ValidUsername(a.username) && a.version != 0
          && a.hash.scheme == YESCRYPT)
         || (a.source, a.subject) in subjects || (a.source, a.username) in usernames {
        return false;
      }
      subjects, usernames := subjects + {(a.source, a.subject)}, usernames + {(a.source, a.username)};
    }
    assert c.accounts[..|c.accounts|] == c.accounts;
    ok := true;
  }

  // ----- authentication -------------------------------------------------------------

  function FindUsername(accounts: seq<Account>, source: string, username: string): (r: Option<Account>)
    ensures r.Some? ==> r.value in accounts && r.value.source == source && r.value.username == username
    ensures r.None? ==> forall a :: a in accounts ==> !(a.source == source && a.username == username)
  {
    if accounts == [] then None
    else if accounts[0].source == source && accounts[0].username == username then Some(accounts[0])
    else FindUsername(accounts[1..], source, username)
  }

  datatype Answer = Authenticated(authentication: Authentication) | Challenge(required: Assurance) | Denied

  function Issue(a: Account): Authentication {
    Authentication(Principal(a.source, a.subject, a.username), Password, a.version)
  }

  /** On a bootstrapped appliance with a readable configuration; a missing
      username still does the work of one hash. */
  function Authenticate(c: Configuration, source: string, username: string, password: string, dummy: Hash): Answer {
    if !ValidPassword(password) || source !in c.sources then Denied
    else
      var account := FindUsername(c.accounts, source, username);
      var expected := if account.Some? then account.value.hash else dummy;
      if Crypt(password, expected.salt) != expected then Denied
      else if account.None? then Denied
      else if !AtLeast(Password, c.required) then Challenge(c.required)
      else Authenticated(Issue(account.value))
  }

  predicate AuthorizedIn(c: Configuration, a: Authentication) {
    && AtLeast(a.assurance, c.required)
    && a.principal.source in c.sources
    && exists i :: 0 <= i < |c.accounts| && Issue(c.accounts[i]).principal == a.principal
                   && c.accounts[i].version == a.credentialVersion && c.accounts[i].administrator
  }

  /** An administrator of the configuration stands behind the Authentication,
      and it is as assured as is required. */
  predicate Standing(c: Configuration, a: Authentication) {
    && (c.required == Password || a.assurance == MultiFactor)
    && a.principal.source in c.sources
    && exists k :: k in c.accounts
         && k.source == a.principal.source && k.subject == a.principal.subject && k.username == a.principal.username
         && k.version == a.credentialVersion && k.administrator
  }

  lemma AuthorizedMeaning(c: Configuration, a: Authentication)
    ensures AuthorizedIn(c, a) <==> Standing(c, a)
  {
    if AuthorizedIn(c, a) {
      var i :| 0 <= i < |c.accounts| && Issue(c.accounts[i]).principal == a.principal
               && c.accounts[i].version == a.credentialVersion && c.accounts[i].administrator;
      assert c.accounts[i] in c.accounts;
    }
    if Standing(c, a) {
      var k :| k in c.accounts
               && k.source == a.principal.source && k.subject == a.principal.subject
               && k.username == a.principal.username && k.version == a.credentialVersion && k.administrator;
      var i :| 0 <= i < |c.accounts| && c.accounts[i] == k;
    }
  }

  /** Someone's own secret: the account the source has by this name. */
  predicate OwnSecret(c: Configuration, source: string, username: string, password: string) {
    && PasswordText(password)
    && exists a :: a in c.accounts && a.source == source && a.username == username && a.hash.secret == password
  }

  /** The answer to every attempt: an Authentication of the account exactly for
      its own secret where a password is enough, a challenge where more is
      required, and nothing that tells why not in any other case. What is
      issued stands at once, exactly for an administrator. */
  lemma AuthenticationMeaning(c: Configuration, source: string, username: string, password: string, dummy: Hash)
    requires Readable(c)
    ensures var answer := Authenticate(c, source, username, password, dummy);
      if !OwnSecret(c, source, username, password) then answer == Denied
      else if c.required == MultiFactor then answer == Challenge(MultiFactor)
      else exists a :: a in c.accounts && a.source == source && a.username == username && a.hash.secret == password
             && answer == Authenticated(Authentication(Principal(source, a.subject, username), Password, a.version))
             && (Standing(c, answer.authentication) <==> a.administrator)
  {
    CredentialsMeaning(username, password);
    hide ValidPassword, PasswordText, ValidUsername;
    var found := FindUsername(c.accounts, source, username);
    if found.Some? {
      var a := found.value;
      var i :| 0 <= i < |c.accounts| && c.accounts[i] == a;
      assert SoundAccount(c.sources, c.accounts[i]);
      forall j | 0 <= j < |c.accounts| && c.accounts[j].source == source && c.accounts[j].username == username
        ensures j == i
      {
      }
      assert a in c.accounts;
    }
  }

  // ----- one edit of the accounts ---------------------------------------------------

  datatype Event =
    | Created(account: Account)
    | PasswordChanged(index: nat, hash: Hash)
    | Removed(index: nat)

  function Apply(accounts: seq<Account>, e: Event): seq<Account> {
    match e
    case Created(a) => accounts + [a]
    case PasswordChanged(i, h) =>
      if i < |accounts| then accounts[i := accounts[i].(hash := h, version := accounts[i].version + 1)] else accounts
    case Removed(i) => if i < |accounts| then accounts[..i] + accounts[i + 1..] else accounts
  }

  predicate LocalAdministrator(a: Account) {
    a.source == LOCAL_SOURCE && a.administrator
  }

  function LocalAdministrators(accounts: seq<Account>): nat {
    if accounts == [] then 0
    else (if LocalAdministrator(accounts[0]) then 1 else 0) + LocalAdministrators(accounts[1..])
  }

  /** How many local administrators there are, as far as it matters. */
  lemma {:induction false} CountMeaning(accounts: seq<Account>)
    ensures LocalAdministrators(accounts) > 0 <==>
            exists i :: 0 <= i < |accounts| && accounts[i].source == "local" && accounts[i].administrator
    ensures LocalAdministrators(accounts) > 1 <==>
            exists i, j :: 0 <= i < j < |accounts|
              && accounts[i].source == "local" && accounts[i].administrator
              && accounts[j].source == "local" && accounts[j].administrator
  {
    if accounts != [] {
      var rest := accounts[1..];
      CountMeaning(rest);
      assert forall i :: 0 < i < |accounts| ==> accounts[i] == rest[i - 1];
      if LocalAdministrators(rest) > 0 {
        var k :| 0 <= k < |rest| && rest[k].source == "local" && rest[k].administrator;
        assert accounts[k + 1] == rest[k];
      }
      if LocalAdministrators(rest) > 1 {
        var i, j :| 0 <= i < j < |rest| && rest[i].source == "local" && rest[i].administrator
                    && rest[j].source == "local" && rest[j].administrator;
        assert accounts[i + 1] == rest[i] && accounts[j + 1] == rest[j];
      }
    }
  }

  lemma {:induction false} LocalAdministratorsAppend(a: seq<Account>, b: seq<Account>)
    ensures LocalAdministrators(a + b) == LocalAdministrators(a) + LocalAdministrators(b)
  {
    if a == [] {
      assert a + b == b;
    } else {
      assert (a + b)[1..] == a[1..] + b;
      LocalAdministratorsAppend(a[1..], b);
    }
  }

  /** What the account operations check before an edit; `used` are the subjects
      that ever were. */
  predicate Legal(c: Configuration, e: Event, used: set<string>) {
    match e
    case Created(a) =>
      && LocalAdministrator(a) && a.version == 1 && a.subject != "" && a.subject !in used
      && LOCAL_SOURCE in c.sources && ValidUsername(a.username) && a.hash.scheme == YESCRYPT
      && (forall i :: 0 <= i < |c.accounts| && c.accounts[i].source == LOCAL_SOURCE ==>
          c.accounts[i].username != a.username)
    case PasswordChanged(i, h) => i < |c.accounts| && LocalAdministrator(c.accounts[i]) && h.scheme == YESCRYPT
    case Removed(i) => i < |c.accounts| && LocalAdministrator(c.accounts[i]) && LocalAdministrators(c.accounts) > 1
  }

  /** Every subject in use has been issued once. */
  predicate Issued(c: Configuration, used: set<string>) {
    forall i :: 0 <= i < |c.accounts| ==> c.accounts[i].subject in used
  }

  function NowUsed(used: set<string>, e: Event): set<string> {
    if e.Created? then used + {e.account.subject} else used
  }

  function Edited(c: Configuration, e: Event): Configuration {
    c.(accounts := Apply(c.accounts, e))
  }

  lemma PasswordChangeReadable(c: Configuration, i: nat, h: Hash)
    requires Readable(c) && i < |c.accounts| && h.scheme == YESCRYPT
    ensures Readable(Edited(c, PasswordChanged(i, h)))
  {
    hide ValidUsername;
  }

  lemma PasswordChangeKeeps(c: Configuration, e: Event, used: set<string>)
    requires Readable(c) && e.PasswordChanged? && Legal(c, e, used)
    ensures Readable(Edited(c, e)) && LocalAdministrators(Edited(c, e).accounts) == LocalAdministrators(c.accounts)
  {
    hide Readable;
    PasswordChangeReadable(c, e.index, e.hash);
    var accounts, i := c.accounts, e.index;
    var a, b := accounts[i], Edited(c, e).accounts[i];
    assert accounts == accounts[..i] + ([a] + accounts[i + 1..]);
    assert Edited(c, e).accounts == accounts[..i] + ([b] + accounts[i + 1..]);
    LocalAdministratorsAppend(accounts[..i], [a] + accounts[i + 1..]);
    LocalAdministratorsAppend(accounts[..i], [b] + accounts[i + 1..]);
  }

  lemma RemovalReadable(c: Configuration, i: nat)
    requires Readable(c) && i < |c.accounts|
    ensures Readable(Edited(c, Removed(i)))
  {
    hide SoundAccount;
    var rest := c.accounts[..i] + c.accounts[i + 1..];
    assert forall k :: 0 <= k < |rest| ==> rest[k] == c.accounts[if k < i then k else k + 1];
  }

  lemma RemovalKeeps(c: Configuration, e: Event, used: set<string>)
    requires Readable(c) && e.Removed? && Legal(c, e, used)
    ensures Readable(Edited(c, e)) && LocalAdministrators(Edited(c, e).accounts) == LocalAdministrators(c.accounts) - 1
  {
    hide Readable;
    var accounts, i := c.accounts, e.index;
    RemovalReadable(c, i);
    assert accounts == accounts[..i] + ([accounts[i]] + accounts[i + 1..]);
    LocalAdministratorsAppend(accounts[..i], [accounts[i]] + accounts[i + 1..]);
    LocalAdministratorsAppend(accounts[..i], accounts[i + 1..]);
  }

  lemma CreationKeeps(c: Configuration, e: Event, used: set<string>)
    requires Readable(c) && Issued(c, used) && e.Created? && Legal(c, e, used)
    ensures Readable(Edited(c, e)) && LocalAdministrators(Edited(c, e).accounts) == LocalAdministrators(c.accounts) + 1
  {
    hide ValidUsername;
    LocalAdministratorsAppend(c.accounts, [e.account]);
  }

  /** A readable configuration whose subjects were all issued, with a local
      administrator. */
  predicate Kept(c: Configuration, used: set<string>) {
    Readable(c) && Issued(c, used) && LocalAdministrators(c.accounts) >= 1
  }

  lemma EditKeeps(c: Configuration, e: Event, used: set<string>)
    requires Kept(c, used) && Legal(c, e, used)
    ensures Kept(Edited(c, e), NowUsed(used, e))
  {
    hide Readable, LocalAdministrators, ValidUsername;
    match e {
      case Created(_) => CreationKeeps(c, e, used);
      case PasswordChanged(_, _) => PasswordChangeKeeps(c, e, used);
      case Removed(_) => RemovalKeeps(c, e, used);
    }
  }

  // ----- sessions over a run ----------------------------------------------------------

  function Replay(c: Configuration, events: seq<Event>): Configuration
    decreases events
  {
    if events == [] then c else Replay(Edited(c, events[0]), events[1..])
  }

  function UsedAfter(used: set<string>, events: seq<Event>): set<string>
    decreases events
  {
    if events == [] then used else UsedAfter(NowUsed(used, events[0]), events[1..])
  }

  predicate LegalRun(c: Configuration, events: seq<Event>, used: set<string>)
    decreases events
  {
    events == [] || (Legal(c, events[0], used) && LegalRun(Edited(c, events[0]), events[1..], NowUsed(used, events[0])))
  }

  /** The account behind a source-qualified subject. */
  function FindSubject(accounts: seq<Account>, source: string, subject: string): (r: Option<Account>)
    ensures r.Some? ==> r.value in accounts && r.value.source == source && r.value.subject == subject
    ensures r.None? ==> forall a :: a in accounts ==> !(a.source == source && a.subject == subject)
  {
    if accounts == [] then None
    else if accounts[0].source == source && accounts[0].subject == subject then Some(accounts[0])
    else FindSubject(accounts[1..], source, subject)
  }

  predicate Changes(c: Configuration, e: Event, source: string, subject: string) {
    e.PasswordChanged? && e.index < |c.accounts| && c.accounts[e.index].source == source
      && c.accounts[e.index].subject == subject
  }

  predicate Removes(c: Configuration, e: Event, source: string, subject: string) {
    e.Removed? && e.index < |c.accounts| && c.accounts[e.index].source == source
      && c.accounts[e.index].subject == subject
  }

  /** Some event of the run changes this account's password. */
  predicate PasswordChangedIn(c: Configuration, events: seq<Event>, source: string, subject: string)
    decreases events
  {
    events != [] && (Changes(c, events[0], source, subject)
      || PasswordChangedIn(Edited(c, events[0]), events[1..], source, subject))
  }

  lemma Unique(accounts: seq<Account>, a: Account)
    requires DistinctAccounts(accounts) && a in accounts
    ensures FindSubject(accounts, a.source, a.subject) == Some(a)
  {
    var found := FindSubject(accounts, a.source, a.subject).value;
    var i :| 0 <= i < |accounts| && accounts[i] == a;
    var j :| 0 <= j < |accounts| && accounts[j] == found;
  }

  lemma CreationFinds(c: Configuration, e: Event, used: set<string>, source: string, subject: string)
    requires Kept(c, used) && Legal(c, e, used) && e.Created? && subject in used
    ensures FindSubject(Edited(c, e).accounts, source, subject) == FindSubject(c.accounts, source, subject)
  {
    EditKeeps(c, e, used);
    hide LocalAdministrators, SoundAccount, Legal;
    assert e.account.subject !in used;
    var before, after := FindSubject(c.accounts, source, subject), FindSubject(Edited(c, e).accounts, source, subject);
    if before.Some? { Unique(Edited(c, e).accounts, before.value); }
  }

  lemma ChangeFinds(c: Configuration, e: Event, used: set<string>, source: string, subject: string)
    requires Kept(c, used) && Legal(c, e, used) && e.PasswordChanged?
    ensures var before, after := FindSubject(c.accounts, source, subject),
        FindSubject(Edited(c, e).accounts, source, subject);
      if Changes(c, e, source, subject)
      then before.Some? && after == Some(before.value.(hash := e.hash, version := before.value.version + 1))
      else after == before
  {
    EditKeeps(c, e, used);
    hide LocalAdministrators, SoundAccount, Issued, Legal;
    var changed := Edited(c, e).accounts;
    var before, after := FindSubject(c.accounts, source, subject), FindSubject(changed, source, subject);
    assert changed[e.index] in changed && c.accounts[e.index] in c.accounts;
    Unique(c.accounts, c.accounts[e.index]);
    Unique(changed, changed[e.index]);
    if !Changes(c, e, source, subject) {
      if before.Some? {
        var j :| 0 <= j < |c.accounts| && c.accounts[j] == before.value;
        assert changed[j] == before.value;
        Unique(changed, before.value);
      }
    }
  }

  lemma RemovalMembers(accounts: seq<Account>, i: nat, a: Account)
    requires DistinctAccounts(accounts) && i < |accounts|
    ensures a in accounts[..i] + accounts[i + 1..] <==> a in accounts && a != accounts[i]
  {
    var rest := accounts[..i] + accounts[i + 1..];
    if a in rest {
      var k :| 0 <= k < |rest| && rest[k] == a;
      assert a == accounts[if k < i then k else k + 1];
    }
    if a in accounts && a != accounts[i] {
      var j :| 0 <= j < |accounts| && accounts[j] == a;
      assert rest[if j < i then j else j - 1] == a;
    }
  }

  lemma RemovalFinds(c: Configuration, e: Event, used: set<string>, source: string, subject: string)
    requires Kept(c, used) && Legal(c, e, used) && e.Removed?
    ensures FindSubject(Edited(c, e).accounts, source, subject) ==
            if Removes(c, e, source, subject) then None else FindSubject(c.accounts, source, subject)
  {
    EditKeeps(c, e, used);
    var rest := Edited(c, e).accounts;
    var gone := c.accounts[e.index];
    assert DistinctAccounts(rest) && DistinctAccounts(c.accounts) && gone in c.accounts;
    hide LocalAdministrators, Readable, DistinctAccounts, Issued, Legal, Kept, SoundAccount;
    var before, after := FindSubject(c.accounts, source, subject), FindSubject(rest, source, subject);
    Unique(c.accounts, gone);
    if after.Some? { RemovalMembers(c.accounts, e.index, after.value); Unique(c.accounts, after.value); }
    if before.Some? { RemovalMembers(c.accounts, e.index, before.value); }
    if before.Some? && !Removes(c, e, source, subject) { Unique(rest, before.value); }
  }

  /** What one edit does to the account behind an issued subject. */
  lemma EditFinds(c: Configuration, e: Event, used: set<string>, source: string, subject: string)
    requires Kept(c, used) && Legal(c, e, used) && subject in used
    ensures var before, after := FindSubject(c.accounts, source, subject),
        FindSubject(Edited(c, e).accounts, source, subject);
      if before.None? || Removes(c, e, source, subject) then after.None?
      else if Changes(c, e, source, subject)
          then after == Some(before.value.(hash := e.hash, version := before.value.version + 1))
      else after == before
  {
    hide Kept, Legal, Edited, FindSubject;
    match e {
      case Created(_) => CreationFinds(c, e, used, source, subject);
      case PasswordChanged(_, _) => ChangeFinds(c, e, used, source, subject);
      case Removed(_) => RemovalFinds(c, e, used, source, subject);
    }
  }

  lemma AuthorizedBySubject(c: Configuration, a: Account)
    requires Readable(c) && c.required == Password && a.source in c.sources
    ensures AuthorizedIn(c, Issue(a)) <==>
      var found := FindSubject(c.accounts, a.source, a.subject);
      found.Some? && found.value.username == a.username && found.value.administrator && found.value.version == a.version
  {
    hide SoundAccount;
    var found := FindSubject(c.accounts, a.source, a.subject);
    if AuthorizedIn(c, Issue(a)) {
      var i :| 0 <= i < |c.accounts| && Issue(c.accounts[i]).principal == Issue(a).principal
               && c.accounts[i].version == a.version && c.accounts[i].administrator;
      assert c.accounts[i] in c.accounts;
      Unique(c.accounts, c.accounts[i]);
    }
    if found.Some? { var i :| 0 <= i < |c.accounts| && c.accounts[i] == found.value; }
  }

  /** Over a run, the account behind a subject keeps its name and grant, its
      credential version counts its password changes, and once gone it never
      comes back. */
  lemma {:induction false} RunFinds(c: Configuration, events: seq<Event>, used: set<string>, source: string,
      subject: string)
    requires Kept(c, used) && LegalRun(c, events, used) && subject in used
    ensures Kept(Replay(c, events), UsedAfter(used, events))
        && Replay(c, events) == c.(accounts := Replay(c, events).accounts)
    ensures var first, last := FindSubject(c.accounts, source, subject),
        FindSubject(Replay(c, events).accounts, source, subject);
      && (first.None? ==> last.None?)
      && (last.Some? ==>
            && last.value.username == first.value.username && last.value.administrator == first.value.administrator
            && last.value.version >= first.value.version
            && (last.value.version == first.value.version <==> !PasswordChangedIn(c, events, source, subject)))
    decreases events
  {
    hide Kept, Legal, FindSubject, Changes, Removes;
    if events != [] {
      EditKeeps(c, events[0], used);
      EditFinds(c, events[0], used, source, subject);
      RunFinds(Edited(c, events[0]), events[1..], NowUsed(used, events[0]), source, subject);
    }
  }

  /** However accounts are edited, an Authentication issued to an administrator
      is authorized later exactly while its account exists and its password
      has not changed since: a username removed and created again does not
      revive it. */
  lemma SessionValidity(c: Configuration, events: seq<Event>, used: set<string>, a: Account)
    requires Kept(c, used) && LegalRun(c, events, used)
    requires c.required == Password && a in c.accounts && a.administrator
    ensures var now := Replay(c, events);
      AuthorizedIn(now, Issue(a)) <==>
        FindSubject(now.accounts, a.source, a.subject).Some? && !PasswordChangedIn(c, events, a.source, a.subject)
  {
    var i :| 0 <= i < |c.accounts| && c.accounts[i] == a;
    assert SoundAccount(c.sources, c.accounts[i]);
    Unique(c.accounts, a);
    RunFinds(c, events, used, a.source, a.subject);
    AuthorizedBySubject(Replay(c, events), a);
  }

  lemma {:induction false} RunExtends(c: Configuration, events: seq<Event>, used: set<string>, e: Event)
    requires LegalRun(c, events, used) && Legal(Replay(c, events), e, UsedAfter(used, events))
    ensures LegalRun(c, events + [e], used)
    ensures Replay(c, events + [e]) == Edited(Replay(c, events), e)
    ensures UsedAfter(used, events + [e]) == NowUsed(UsedAfter(used, events), e)
    decreases events
  {
    hide Legal, Edited, NowUsed;
    if events == [] {
      assert events + [e] == [e];
    } else {
      assert (events + [e])[1..] == events[1..] + [e];
      RunExtends(Edited(c, events[0]), events[1..], NowUsed(used, events[0]), e);
    }
  }

  // ----- the account operations -------------------------------------------------------

  datatype AccountError = Forbidden | InvalidCredentials | AlreadyExists | NotFound | LastAdministrator | Storage

  predicate Named(a: Account, username: string) {
    LocalAdministrator(a) && a.username == username
  }

  /** The position of a local administrator. */
  function FindAdministrator(accounts: seq<Account>, username: string): (r: Option<nat>)
    ensures r.Some? ==> r.value < |accounts| && Named(accounts[r.value], username)
    ensures r.None? ==> forall a :: a in accounts ==> !Named(a, username)
  {
    if accounts == [] then None
    else if Named(accounts[0], username) then Some(0)
    else
      var rest := FindAdministrator(accounts[1..], username);
      if rest.None? then None else Some(rest.value + 1)
  }

  // ----- what each operation answers, and what it makes of the accounts ---------------

  /** A local administrator by this name. */
  predicate Administers(a: Account, username: string) {
    a.source == "local" && a.administrator && a.username == username
  }

  function CreateAnswer(c: Configuration, caller: Authentication, username: string, password: string)
    : Result<(), AccountError>
  {
    if !UsernameText(username) || !PasswordText(password) then Err(InvalidCredentials)
    else if !Standing(c, caller) then Err(Forbidden)
    else if "local" !in c.sources then Err(Storage)
    else if exists a :: a in c.accounts && a.source == "local" && a.username == username then Err(AlreadyExists)
    else Ok(())
  }

  function ChangeAnswer(c: Configuration, caller: Authentication, username: string, password: string)
    : Result<(), AccountError>
  {
    if !PasswordText(password) then Err(InvalidCredentials)
    else if !Standing(c, caller) then Err(Forbidden)
    else if !(exists a :: a in c.accounts && Administers(a, username)) then Err(NotFound)
    else if exists a :: a in c.accounts && Administers(a, username) && a.version >= 0xFFFF_FFFF_FFFF_FFFF
      then Err(Storage)
    else Ok(())
  }

  function RemoveAnswer(c: Configuration, caller: Authentication, username: string): Result<(), AccountError> {
    if !Standing(c, caller) then Err(Forbidden)
    else if !(exists a :: a in c.accounts && Administers(a, username)) then Err(NotFound)
    else if !(exists i, j :: 0 <= i < j < |c.accounts|
                && c.accounts[i].source == "local" && c.accounts[i].administrator
                && c.accounts[j].source == "local" && c.accounts[j].administrator)
      then Err(LastAdministrator)
    else Ok(())
  }

  /** One more account, the administrator asked for. */
  predicate AddsAdministrator(c: Configuration, next: Configuration, username: string, password: string, token: string,
                              salt: nat)
  {
    next == c.(accounts := c.accounts
                           + [Account("local", token, username, Hash("$y$", salt, password), 1, true)])
  }

  /** The administrator by this name has a new secret, one version on. */
  predicate ReplacesPassword(c: Configuration, next: Configuration, username: string, password: string, salt: nat) {
    && next == c.(accounts := next.accounts)
    && |next.accounts| == |c.accounts|
    && forall i :: 0 <= i < |c.accounts| ==>
         next.accounts[i] == if Administers(c.accounts[i], username)
                             then c.accounts[i].(hash := Hash("$y$", salt, password), version := c.accounts[i].version
                               + 1)
                             else c.accounts[i]
  }

  /** The administrator by this name is gone, all others are in place. */
  predicate RemovesAdministrator(c: Configuration, next: Configuration, username: string) {
    exists k :: 0 <= k < |c.accounts| && Administers(c.accounts[k], username)
                && next == c.(accounts := c.accounts[..k] + c.accounts[k + 1..])
  }

  lemma OneAdministrator(accounts: seq<Account>, username: string, i: nat, j: nat)
    requires DistinctAccounts(accounts) && i < |accounts| && j < |accounts|
    requires Administers(accounts[i], username) && Administers(accounts[j], username)
    ensures i == j
  {
  }

  lemma FindMeaning(c: Configuration, username: string)
    requires Readable(c)
    ensures FindUsername(c.accounts, LOCAL_SOURCE, username).Some? <==>
            exists a :: a in c.accounts && a.source == "local" && a.username == username
    ensures FindAdministrator(c.accounts, username).Some? <==> exists a :: a in c.accounts && Administers(a, username)
    ensures FindAdministrator(c.accounts, username).Some? ==>
      var k := FindAdministrator(c.accounts, username).value;
      && Administers(c.accounts[k], username)
      && (forall i :: 0 <= i < |c.accounts| && i != k ==> !Administers(c.accounts[i], username))
      && (forall a :: a in c.accounts && Administers(a, username) ==> a == c.accounts[k])
  {
    hide SoundAccount;
    var found := FindAdministrator(c.accounts, username);
    if found.Some? {
      assert c.accounts[found.value] in c.accounts;
      forall i | 0 <= i < |c.accounts| && Administers(c.accounts[i], username)
        ensures i == found.value
      {
        OneAdministrator(c.accounts, username, i, found.value);
      }
    }
  }

  /** The checks of a removal, and its result, against what it has to be. */
  lemma RemoveMeaning(c: Configuration, caller: Authentication, username: string)
    requires Readable(c)
    ensures RemoveAnswer(c, caller, username) ==
            if !AuthorizedIn(c, caller) then Err(Forbidden)
            else if FindAdministrator(c.accounts, username).None? then Err(NotFound)
            else if LocalAdministrators(c.accounts) <= 1 then Err(LastAdministrator)
            else Ok(())
    ensures var k := FindAdministrator(c.accounts, username);
      k.Some? ==>
        RemovesAdministrator(c, c.(accounts := c.accounts[..k.value] + c.accounts[k.value + 1..]), username)
  {
    AuthorizedMeaning(c, caller);
    FindMeaning(c, username);
    CountMeaning(c.accounts);
    hide Readable, AuthorizedIn, Standing, LocalAdministrators, FindAdministrator;
  }

  lemma ChangeMeaning(c: Configuration, caller: Authentication, username: string, password: string, salt: nat)
    requires Readable(c)
    ensures ChangeAnswer(c, caller, username, password) ==
            var k := FindAdministrator(c.accounts, username);
            if !ValidPassword(password) then Err(InvalidCredentials)
            else if !AuthorizedIn(c, caller) then Err(Forbidden)
            else if k.None? then Err(NotFound)
            else if c.accounts[k.value].version >= MAX_CREDENTIAL_VERSION then Err(Storage)
            else Ok(())
    ensures var k := FindAdministrator(c.accounts, username);
      k.Some? ==>
        var a := c.accounts[k.value];
        ReplacesPassword(c, c.(accounts := c.accounts[k.value := a.(hash := Crypt(password, salt),
          version := a.version + 1)]),
                         username, password, salt)
  {
    CredentialsMeaning(username, password);
    AuthorizedMeaning(c, caller);
    FindMeaning(c, username);
    hide Readable, AuthorizedIn, Standing, FindAdministrator, ValidPassword, PasswordText;
    var k := FindAdministrator(c.accounts, username);
    if k.Some? { assert c.accounts[k.value] in c.accounts; }
  }

  class Accounts {
    /** Whether the environment may inject faults. */
    var faulty: bool
    /** What the file may be after a power loss, last what a reader sees. */
    var images: seq<Configuration>
    /** Subjects ever issued; random tokens are fresh. */
    ghost var used: set<string>
    /** The run since power came back: sessions do not outlive it. */
    ghost var start: Configuration
    ghost var usedAtStart: set<string>
    ghost var events: seq<Event>

    function Visible(): Configuration
      requires images != []
      reads this
      ensures Visible() in images
    {
      images[|images| - 1]
    }

    ghost predicate Valid()
      reads this
    {
      && images != []
      && (forall c :: c in images ==> Kept(c, used))
      && Kept(start, usedAtStart)
      && LegalRun(start, events, usedAtStart)
      && Visible() == Replay(start, events)
      && UsedAfter(usedAtStart, events) <= used
    }

    /** The first administrator, at Bootstrap. */
    constructor (username: string, password: string, token: string, salt: nat)
      requires ValidUsername(username) && ValidPassword(password) && token != ""
      ensures Valid() && Visible().required == Password
      ensures Visible().accounts == [Account("local", token, username, Hash("$y$", salt, password), 1, true)]
      ensures Visible().sources == ["local"]
    {
      var first := Account(LOCAL_SOURCE, token, username, Crypt(password, salt), 1, true);
      images := [Configuration(1, [LOCAL_SOURCE], Password, [first])];
      used, usedAtStart, events := {token}, {token}, [];
      faulty := true;
      start := Configuration(1, [LOCAL_SOURCE], Password, [first]);
    }

    /** `write_configuration`: published by rename, durable once the directory
        is synced; a failure may come before or after the rename. */
    method Write(next: Configuration, ghost e: Event) returns (ok: bool)
      requires Valid() && next == Edited(Visible(), e) && Legal(Visible(), e, used)
      modifies `images, `used, `events
      ensures Valid() && used == NowUsed(old(used), e)
      ensures !faulty ==> ok
      ensures ok ==> images == [next] && events == old(events) + [e]
      ensures !ok ==> (images == old(images) && events == old(events))
                      || (images == old(images) + [next] && events == old(events) + [e])
    {
      hide Kept, Legal, LegalRun, Replay, Edited, UsedAfter, NowUsed;
      EditKeeps(Visible(), e, used);
      AllKeptGrows(images, used, e);
      LegalShrinks(Visible(), e, used, UsedAfter(usedAtStart, events));
      RunExtends(start, events, usedAtStart, e);
      used := NowUsed(used, e);
      var renamed: bool :| !renamed ==> faulty;
      if !renamed { return false; }
      images := images + [next];
      events := events + [e];
      ok :| !ok ==> faulty;
      if ok { images := [next]; }
    }

    /** Losing power ends every session and leaves one of the images. */
    method PowerLoss()
      requires Valid()
      modifies `images, `start, `usedAtStart, `events
      ensures Valid() && |images| == 1 && images[0] in old(images) && events == []
    {
      var survivor :| 0 <= survivor < |images|;
      images := [images[survivor]];
      start, usedAtStart, events := images[0], used, [];
    }

    method CreateLocalAdministrator(caller: Authentication, username: string, password: string, token: string,
        salt: nat)
      returns (r: Result<(), AccountError>)
      requires Valid() && token != "" && token !in used
      modifies `images, `used, `events
      ensures Valid()
      ensures r == CreateAnswer(old(Visible()), caller, username, password) || (faulty && r == Err(Storage))
      ensures r.Ok? ==> |images| == 1 && AddsAdministrator(old(Visible()), images[0], username, password, token, salt)
      ensures r == Err(Storage) ==>
        || images == old(images)
        || (CreateAnswer(old(Visible()), caller, username, password).Ok?
            && AddsAdministrator(old(Visible()), Visible(), username, password, token, salt)
            && images == old(images) + [Visible()])
      ensures r == Err(Storage) && PasswordText(password) ==> UsernameText(username)
      ensures r.Err? && r.error != Storage ==> images == old(images) && events == old(events)
    {
      CredentialsMeaning(username, password);
      AuthorizedMeaning(Visible(), caller);
      FindMeaning(Visible(), username);
      if !ValidUsername(username) || !ValidPassword(password) { return Err(InvalidCredentials); }
      var unreadable: bool :| unreadable ==> faulty;
      if unreadable { return Err(Storage); }
      var c := Visible();
      if !AuthorizedIn(c, caller) { return Err(Forbidden); }
      if LOCAL_SOURCE !in c.sources { return Err(Storage); }
      if FindUsername(c.accounts, LOCAL_SOURCE, username).Some? { return Err(AlreadyExists); }
      var account := Account(LOCAL_SOURCE, token, username, Crypt(password, salt), 1, true);
      assert Legal(c, Created(account), used);
      hide Kept, LegalRun, Replay, AuthorizedIn, ValidUsername, ValidPassword;
      var ok := Write(c.(accounts := c.accounts + [account]), Created(account));
      r := if ok then Ok(()) else Err(Storage);
    }

    method ChangeLocalAdministratorPassword(caller: Authentication, username: string, password: string, salt: nat)
      returns (r: Result<(), AccountError>)
      requires Valid()
      modifies `images, `used, `events
      ensures Valid()
      ensures r == ChangeAnswer(old(Visible()), caller, username, password) || (faulty && r == Err(Storage))
      ensures r.Ok? ==> |images| == 1 && ReplacesPassword(old(Visible()), images[0], username, password, salt)
      ensures r == Err(Storage) ==>
        || images == old(images)
        || (ChangeAnswer(old(Visible()), caller, username, password).Ok?
            && ReplacesPassword(old(Visible()), Visible(), username, password, salt)
            && images == old(images) + [Visible()])
      ensures r == Err(Storage) ==> PasswordText(password)
      ensures r.Err? && r.error != Storage ==> images == old(images) && events == old(events)
    {
      ChangeMeaning(Visible(), caller, username, password, salt);
      CredentialsMeaning(username, password);
      hide ChangeAnswer, ReplacesPassword, PasswordText;
      if !ValidPassword(password) { return Err(InvalidCredentials); }
      var unreadable: bool :| unreadable ==> faulty;
      if unreadable { return Err(Storage); }
      var c := Visible();
      if !AuthorizedIn(c, caller) { return Err(Forbidden); }
      var found := FindAdministrator(c.accounts, username);
      if found.None? { return Err(NotFound); }
      var a := c.accounts[found.value];
      if a.version >= MAX_CREDENTIAL_VERSION { return Err(Storage); }
      ghost var e := PasswordChanged(found.value, Crypt(password, salt));
      assert Legal(c, e, used);
      hide Kept, LegalRun, Replay, AuthorizedIn, ValidPassword, Legal;
      var ok := Write(c.(accounts := c.accounts[found.value := a.(hash := Crypt(password, salt), version := a.version
          + 1)]), e);
      r := if ok then Ok(()) else Err(Storage);
    }

    method RemoveLocalAdministrator(caller: Authentication, username: string) returns (r: Result<(), AccountError>)
      requires Valid()
      modifies `images, `used, `events
      ensures Valid()
      ensures r == RemoveAnswer(old(Visible()), caller, username) || (faulty && r == Err(Storage))
      ensures r.Ok? ==> |images| == 1 && RemovesAdministrator(old(Visible()), images[0], username)
      ensures r == Err(Storage) ==>
        || images == old(images)
        || (RemoveAnswer(old(Visible()), caller, username).Ok?
            && RemovesAdministrator(old(Visible()), Visible(), username)
            && images == old(images) + [Visible()])
      ensures r.Err? && r.error != Storage ==> images == old(images) && events == old(events)
    {
      RemoveMeaning(Visible(), caller, username);
      hide RemoveAnswer, RemovesAdministrator;
      var unreadable: bool :| unreadable ==> faulty;
      if unreadable { return Err(Storage); }
      var c := Visible();
      if !AuthorizedIn(c, caller) { return Err(Forbidden); }
      var found := FindAdministrator(c.accounts, username);
      if found.None? { return Err(NotFound); }
      assert Kept(c, used);
      if LocalAdministrators(c.accounts) <= 1 { return Err(LastAdministrator); }
      ghost var e := Removed(found.value);
      assert Legal(c, e, used);
      hide Kept, LegalRun, Replay, AuthorizedIn, Legal, LocalAdministrators;
      var ok := Write(c.(accounts := c.accounts[..found.value] + c.accounts[found.value + 1..]), e);
      r := if ok then Ok(()) else Err(Storage);
    }

    /** A session issued `issued` edits into the run, at any later point of it. */
    lemma SessionStanding(issued: nat, a: Account)
      requires Valid() && issued <= |events|
      requires var c := Replay(start, events[..issued]);
        c.required == Password && a in c.accounts && a.administrator
      ensures AuthorizedIn(Visible(), Issue(a)) <==>
                FindSubject(Visible().accounts, a.source, a.subject).Some?
                && !PasswordChangedIn(Replay(start, events[..issued]), events[issued..], a.source, a.subject)
    {
      RunSplits(start, events, usedAtStart, issued);
      SessionValidity(Replay(start, events[..issued]), events[issued..], UsedAfter(usedAtStart, events[..issued]), a);
    }
  }

  lemma AllKeptGrows(images: seq<Configuration>, used: set<string>, e: Event)
    requires forall c :: c in images ==> Kept(c, used)
    ensures used <= NowUsed(used, e) && forall c :: c in images ==> Kept(c, NowUsed(used, e))
  {
    hide Readable, LocalAdministrators;
  }

  lemma LegalShrinks(c: Configuration, e: Event, used: set<string>, fewer: set<string>)
    requires Legal(c, e, used) && fewer <= used
    ensures Legal(c, e, fewer) && NowUsed(fewer, e) <= NowUsed(used, e)
  {
  }

  lemma {:induction false} RunSplits(c: Configuration, events: seq<Event>, used: set<string>, n: nat)
    requires Kept(c, used) && LegalRun(c, events, used) && n <= |events|
    ensures var mid, midUsed := Replay(c, events[..n]), UsedAfter(used, events[..n]);
      && Kept(mid, midUsed) && LegalRun(mid, events[n..], midUsed) && Replay(mid, events[n..]) == Replay(c, events)
    decreases events
  {
    hide Kept, Legal, Edited, NowUsed;
    if n == 0 {
      assert events[..n] == [] && events[n..] == events;
    } else {
      EditKeeps(c, events[0], used);
      assert events[..n][1..] == events[1..][..n - 1] && events[n..] == events[1..][n - 1..];
      RunSplits(Edited(c, events[0]), events[1..], NowUsed(used, events[0]), n - 1);
    }
  }
}
