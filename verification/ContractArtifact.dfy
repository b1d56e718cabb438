/**
 * `canonicalizeArtifact`, field by field: which lists of a contract artifact lose their order, and that they lose nothing
 * else. Records are maps, since the order of keys means nothing; a field that is copied and never looked into is one text.
 */
module ContractArtifact {
  import opened Wrappers
  import opened ContractCanonical

  // ----- the artifact

  datatype Membership = Membership(scope: string, assignableBy: seq<string>)

  datatype Role = Role(grants: seq<string>, member: Option<Membership>, external: bool)

  datatype Mount =
    | Rpc(prefix: string, callers: seq<string>, compatibility: Option<string>)
    | Link(prefix: string, spa: string, dimension: string, grants: seq<string>, issuedBy: string, maxDays: int)
    | Spa(prefix: string, dir: string, published: Option<seq<string>>)
    | Health(path: string)
    | Form(path: string, appendTo: string, settings: string)
    | Webhook(path: string, scheme: string, boundTo: Option<string>, actions: seq<string>, timeoutMs: int)

  /** Whether links reach a collection's files: all or none of them, or the ones named. */
  datatype LinkReach = Every(all: bool) | Named(names: seq<string>)

  datatype FileCollection = FileCollection(
    owner: string, read: string, write: string, delete: string, maxBytes: int, types: seq<string>, maxPerOwner: Option<int>,
    link: LinkReach, scan: bool)

  datatype FileKind = FileKind(types: seq<string>, maxBytes: int, scan: bool, shown: bool)

  datatype Job = Job(schedule: string, actions: seq<string>, scope: Option<string>, timeoutMs: int, retries: int)

  datatype Exported = Exported(version: int, consumers: seq<string>, audience: string)

  datatype Imported = Imported(
    app: string, from: string, version: int, digest: string, procedures: seq<string>, usedBy: seq<string>, timeoutMs: Option<int>)

  datatype Csp = Csp(
    connectSrc: seq<CspSource>, imgSrc: seq<CspSource>, frameAncestors: seq<CspSource>, scriptSrc: Option<seq<CspSource>>,
    frameSrc: Option<seq<CspSource>>, styleSrc: Option<seq<CspSource>>, fontSrc: Option<seq<CspSource>>,
    workerSrc: Option<seq<CspSource>>)

  /** The actions of a table operation: one as its text, or a list. */
  datatype TableActions = One(action: string) | Several(actions: seq<string>)

  datatype PolicyActions = PolicyActions(
    read: TableActions, insert: Option<TableActions>, update: Option<TableActions>, delete: Option<TableActions>,
    appRead: Option<seq<string>>, appCount: Option<seq<string>>)

  datatype TableScope =
    | InDimension(dimension: string, key: string, container: Option<(string, string)>)
    | Child(parent: string, key: string, column: string, inherit: seq<string>)
    | Inbox(form: string)
    | Reference(reason: string)
    | OfApp(reason: string, key: string)

  datatype TablePolicy = TablePolicy(
    scope: TableScope, actions: PolicyActions, insert: seq<string>, update: seq<string>, version: Option<string>,
    createdBy: Option<string>, columns: map<string, (Option<string>, Option<string>)>, files: Option<map<string, string>>, view: bool)

  datatype Reach = Reach(
    sql: Option<string>, unscoped: map<string, string>, connect: seq<string>, issues: Option<string>, job: Option<string>,
    kicks: Option<seq<string>>, mailer: Option<string>, binds: Option<string>, signs: Option<seq<string>>,
    egress: Option<seq<string>>, actions: Option<seq<string>>)

  datatype Procedure = Procedure(rules: string, query: Option<Shape>)

  datatype TokenPurpose = TokenPurpose(claims: Shape, maxDays: int)

  datatype Artifact = Artifact(
    format: int, app: string, dimensions: map<string, string>, actions: map<string, string>, roles: map<string, Role>,
    mounts: map<string, Mount>, files: map<string, FileCollection>, fileKinds: Option<map<string, FileKind>>,
    jobs: map<string, Job>, exports: map<string, Exported>, imports: map<string, Imported>, csp: Csp,
    tables: map<string, TablePolicy>, endpoints: seq<Endpoint>, reservedPrefixes: seq<string>,
    declared: Option<map<string, Reach>>, directories: Option<string>, locale: Option<string>, displayName: Option<string>,
    mail: Option<string>, members: Option<string>, directory: Option<string>, terminal: Option<string>,
    procedures: Option<map<string, Procedure>>, tokens: Option<map<string, TokenPurpose>>)

  // ----- records, optional fields and lists of names

  /** `mapValues`. */
  function MapValues<T>(f: T -> T, m: map<string, T>): map<string, T> {
    map key | key in m :: f(m[key])
  }

  function MapOption<T>(f: T -> T, o: Option<T>): Option<T> {
    match o case None => None case Some(x) => Some(f(x))
  }

  ghost predicate RelatedValues<T>(same: (T, T) -> bool, m: map<string, T>, n: map<string, T>) {
    m.Keys == n.Keys && forall key :: key in m ==> same(m[key], n[key])
  }

  ghost predicate RelatedOption<T>(same: (T, T) -> bool, a: Option<T>, b: Option<T>) {
    match a case None => b == None case Some(x) => b.Some? && same(x, b.value)
  }

  ghost predicate SameNames(a: seq<string>, b: seq<string>) {
    multiset(a) == multiset(b)
  }

  /** `f` takes two values to one exactly when they are related, and takes what it gave to itself. */
  ghost predicate Canonicalizes<T(!new)>(f: T -> T, same: (T, T) -> bool) {
    && (forall x, y :: f(x) == f(y) <==> same(x, y))
    && (forall x :: f(f(x)) == f(x))
  }

  lemma ValuesCanonicalize<T(!new)>(f: T -> T, same: (T, T) -> bool, m: map<string, T>, n: map<string, T>)
    requires Canonicalizes(f, same)
    ensures MapValues(f, m) == MapValues(f, n) <==> RelatedValues(same, m, n)
    ensures MapValues(f, MapValues(f, m)) == MapValues(f, m)
  {
    var x, y := MapValues(f, m), MapValues(f, n);
    assert x.Keys == m.Keys && y.Keys == n.Keys;
    if x == y {
      forall key | key in m ensures same(m[key], n[key]) {
        assert x[key] == y[key];
      }
    }
  }

  lemma OptionCanonicalizes<T(!new)>(f: T -> T, same: (T, T) -> bool, a: Option<T>, b: Option<T>)
    requires Canonicalizes(f, same)
    ensures MapOption(f, a) == MapOption(f, b) <==> RelatedOption(same, a, b)
    ensures MapOption(f, MapOption(f, a)) == MapOption(f, a)
  {
  }

  lemma NamesCanonicalize()
    ensures Canonicalizes(Sorted, SameNames)
  {
    forall x, y ensures Sorted(x) == Sorted(y) <==> SameNames(x, y) {
      SortedIffPermuted(x, y);
    }
    forall x ensures Sorted(Sorted(x)) == Sorted(x) {
      SortedTwice(x);
    }
  }

  lemma OptionalNames(a: Option<seq<string>>, b: Option<seq<string>>)
    ensures MapOption(Sorted, a) == MapOption(Sorted, b) <==> RelatedOption(SameNames, a, b)
    ensures MapOption(Sorted, MapOption(Sorted, a)) == MapOption(Sorted, a)
  {
    hide *;
    NamesCanonicalize();
    OptionCanonicalizes(Sorted, SameNames, a, b);
  }

  /** Two lists of names that the canonical form sorts. */
  lemma Names(a: seq<string>, b: seq<string>)
    ensures Sorted(a) == Sorted(b) <==> SameNames(a, b)
    ensures Sorted(Sorted(a)) == Sorted(a)
  {
    SortedIffPermuted(a, b);
    SortedTwice(a);
  }

  // ----- roles

  function CanonicalMembership(m: Membership): Membership {
    Membership(m.scope, Sorted(m.assignableBy))
  }

  /** `canonicalRole`. */
  function CanonicalRole(r: Role): Role {
    Role(Sorted(r.grants), MapOption(CanonicalMembership, r.member), r.external)
  }

  ghost predicate PermutedMembership(a: Membership, b: Membership) {
    a.scope == b.scope && SameNames(a.assignableBy, b.assignableBy)
  }

  ghost predicate PermutedRole(a: Role, b: Role) {
    SameNames(a.grants, b.grants) && RelatedOption(PermutedMembership, a.member, b.member) && a.external == b.external
  }

  lemma RoleIsPermuted(x: Role, y: Role)
    ensures CanonicalRole(x) == CanonicalRole(y) <==> PermutedRole(x, y)
    ensures CanonicalRole(CanonicalRole(x)) == CanonicalRole(x)
  {
    hide Sorted, SameNames;
    Names(x.grants, y.grants);
    if x.member.Some? {
      Names(x.member.value.assignableBy, if y.member.Some? then y.member.value.assignableBy else []);
    }
  }

  lemma RolesCanonicalize()
    ensures Canonicalizes(CanonicalRole, PermutedRole)
  {
    hide CanonicalRole, PermutedRole;
    forall x, y ensures CanonicalRole(x) == CanonicalRole(y) <==> PermutedRole(x, y) {
      RoleIsPermuted(x, y);
    }
    forall x ensures CanonicalRole(CanonicalRole(x)) == CanonicalRole(x) {
      RoleIsPermuted(x, x);
    }
  }

  // ----- mounts

  /** `canonicalMount`: the one list of each kind that has one. */
  function CanonicalMount(m: Mount): Mount {
    match m
    case Rpc(_, callers, _) => m.(callers := Sorted(callers))
    case Link(_, _, _, grants, _, _) => m.(grants := Sorted(grants))
    case Webhook(_, _, _, actions, _) => m.(actions := Sorted(actions))
    case Spa(_, _, published) => m.(published := MapOption(Sorted, published))
    case _ => m
  }

  ghost predicate PermutedMount(a: Mount, b: Mount) {
    match a
    case Rpc(prefix, callers, compatibility) =>
      b.Rpc? && prefix == b.prefix && compatibility == b.compatibility && SameNames(callers, b.callers)
    case Link(prefix, spa, dimension, grants, issuedBy, maxDays) =>
      && b.Link? && prefix == b.prefix && spa == b.spa && dimension == b.dimension && issuedBy == b.issuedBy
      && maxDays == b.maxDays && SameNames(grants, b.grants)
    case Webhook(path, scheme, boundTo, actions, timeoutMs) =>
      && b.Webhook? && path == b.path && scheme == b.scheme && boundTo == b.boundTo && timeoutMs == b.timeoutMs
      && SameNames(actions, b.actions)
    case Spa(prefix, dir, published) =>
      b.Spa? && prefix == b.prefix && dir == b.dir && RelatedOption(SameNames, published, b.published)
    case Health(_) => a == b
    case Form(_, _, _) => a == b
  }

  /** The list of names the canonical form of a mount sorts. */
  ghost function MountNames(m: Mount): seq<string> {
    match m
    case Rpc(_, callers, _) => callers
    case Link(_, _, _, grants, _, _) => grants
    case Webhook(_, _, _, actions, _) => actions
    case Spa(_, _, Some(published)) => published
    case _ => []
  }

  lemma MountIsPermuted(x: Mount, y: Mount)
    ensures CanonicalMount(x) == CanonicalMount(y) <==> PermutedMount(x, y)
    ensures CanonicalMount(CanonicalMount(x)) == CanonicalMount(x)
  {
    hide Sorted, SameNames;
    Names(MountNames(x), MountNames(y));
  }

  lemma MountsCanonicalize()
    ensures Canonicalizes(CanonicalMount, PermutedMount)
  {
    hide CanonicalMount, PermutedMount;
    forall x, y ensures CanonicalMount(x) == CanonicalMount(y) <==> PermutedMount(x, y) {
      MountIsPermuted(x, y);
    }
    forall x ensures CanonicalMount(CanonicalMount(x)) == CanonicalMount(x) {
      MountIsPermuted(x, x);
    }
  }

  // ----- files, jobs, exports, imports

  function CanonicalLink(l: LinkReach): LinkReach {
    match l case Every(_) => l case Named(names) => Named(Sorted(names))
  }

  function CanonicalFiles(c: FileCollection): FileCollection {
    c.(types := Sorted(c.types), link := CanonicalLink(c.link))
  }

  ghost predicate PermutedLink(a: LinkReach, b: LinkReach) {
    match a case Every(_) => a == b case Named(names) => b.Named? && SameNames(names, b.names)
  }

  ghost predicate PermutedFiles(a: FileCollection, b: FileCollection) {
    && a.owner == b.owner && a.read == b.read && a.write == b.write && a.delete == b.delete && a.maxBytes == b.maxBytes
    && a.maxPerOwner == b.maxPerOwner && a.scan == b.scan
    && SameNames(a.types, b.types) && PermutedLink(a.link, b.link)
  }

  lemma FilesIsPermuted(x: FileCollection, y: FileCollection)
    ensures CanonicalFiles(x) == CanonicalFiles(y) <==> PermutedFiles(x, y)
    ensures CanonicalFiles(CanonicalFiles(x)) == CanonicalFiles(x)
  {
    hide Sorted, SameNames;
    Names(x.types, y.types);
    if x.link.Named? {
      Names(x.link.names, if y.link.Named? then y.link.names else []);
    }
  }

  lemma FilesCanonicalize()
    ensures Canonicalizes(CanonicalFiles, PermutedFiles)
  {
    hide CanonicalFiles, PermutedFiles;
    forall x, y ensures CanonicalFiles(x) == CanonicalFiles(y) <==> PermutedFiles(x, y) {
      FilesIsPermuted(x, y);
    }
    forall x ensures CanonicalFiles(CanonicalFiles(x)) == CanonicalFiles(x) {
      FilesIsPermuted(x, x);
    }
  }

  function CanonicalKind(k: FileKind): FileKind {
    k.(types := Sorted(k.types))
  }

  ghost predicate PermutedKind(a: FileKind, b: FileKind) {
    SameNames(a.types, b.types) && a.maxBytes == b.maxBytes && a.scan == b.scan && a.shown == b.shown
  }

  lemma KindIsPermuted(x: FileKind, y: FileKind)
    ensures CanonicalKind(x) == CanonicalKind(y) <==> PermutedKind(x, y)
    ensures CanonicalKind(CanonicalKind(x)) == CanonicalKind(x)
  {
    hide Sorted, SameNames;
    Names(x.types, y.types);
  }

  lemma KindsCanonicalize()
    ensures Canonicalizes(CanonicalKind, PermutedKind)
  {
    hide CanonicalKind, PermutedKind;
    forall x, y ensures CanonicalKind(x) == CanonicalKind(y) <==> PermutedKind(x, y) {
      KindIsPermuted(x, y);
    }
    forall x ensures CanonicalKind(CanonicalKind(x)) == CanonicalKind(x) {
      KindIsPermuted(x, x);
    }
  }

  function CanonicalJob(j: Job): Job {
    j.(actions := Sorted(j.actions))
  }

  ghost predicate PermutedJob(a: Job, b: Job) {
    && a.schedule == b.schedule && a.scope == b.scope && a.timeoutMs == b.timeoutMs && a.retries == b.retries
    && SameNames(a.actions, b.actions)
  }

  lemma JobIsPermuted(x: Job, y: Job)
    ensures CanonicalJob(x) == CanonicalJob(y) <==> PermutedJob(x, y)
    ensures CanonicalJob(CanonicalJob(x)) == CanonicalJob(x)
  {
    hide Sorted, SameNames;
    Names(x.actions, y.actions);
  }

  lemma JobsCanonicalize()
    ensures Canonicalizes(CanonicalJob, PermutedJob)
  {
    hide CanonicalJob, PermutedJob;
    forall x, y ensures CanonicalJob(x) == CanonicalJob(y) <==> PermutedJob(x, y) {
      JobIsPermuted(x, y);
    }
    forall x ensures CanonicalJob(CanonicalJob(x)) == CanonicalJob(x) {
      JobIsPermuted(x, x);
    }
  }

  function CanonicalExport(e: Exported): Exported {
    e.(consumers := Sorted(e.consumers))
  }

  ghost predicate PermutedExport(a: Exported, b: Exported) {
    a.version == b.version && a.audience == b.audience && SameNames(a.consumers, b.consumers)
  }

  lemma ExportIsPermuted(x: Exported, y: Exported)
    ensures CanonicalExport(x) == CanonicalExport(y) <==> PermutedExport(x, y)
    ensures CanonicalExport(CanonicalExport(x)) == CanonicalExport(x)
  {
    hide Sorted, SameNames;
    Names(x.consumers, y.consumers);
  }

  lemma ExportsCanonicalize()
    ensures Canonicalizes(CanonicalExport, PermutedExport)
  {
    hide CanonicalExport, PermutedExport;
    forall x, y ensures CanonicalExport(x) == CanonicalExport(y) <==> PermutedExport(x, y) {
      ExportIsPermuted(x, y);
    }
    forall x ensures CanonicalExport(CanonicalExport(x)) == CanonicalExport(x) {
      ExportIsPermuted(x, x);
    }
  }

  function CanonicalImport(i: Imported): Imported {
    i.(procedures := Sorted(i.procedures), usedBy := Sorted(i.usedBy))
  }

  ghost predicate PermutedImport(a: Imported, b: Imported) {
    && a.app == b.app && a.from == b.from && a.version == b.version && a.digest == b.digest && a.timeoutMs == b.timeoutMs
    && SameNames(a.procedures, b.procedures) && SameNames(a.usedBy, b.usedBy)
  }

  lemma ImportIsPermuted(x: Imported, y: Imported)
    ensures CanonicalImport(x) == CanonicalImport(y) <==> PermutedImport(x, y)
    ensures CanonicalImport(CanonicalImport(x)) == CanonicalImport(x)
  {
    hide Sorted, SameNames;
    Names(x.procedures, y.procedures);
    Names(x.usedBy, y.usedBy);
  }

  lemma ImportsCanonicalize()
    ensures Canonicalizes(CanonicalImport, PermutedImport)
  {
    hide CanonicalImport, PermutedImport;
    forall x, y ensures CanonicalImport(x) == CanonicalImport(y) <==> PermutedImport(x, y) {
      ImportIsPermuted(x, y);
    }
    forall x ensures CanonicalImport(CanonicalImport(x)) == CanonicalImport(x) {
      ImportIsPermuted(x, x);
    }
  }

  // ----- CSP

  function CanonicalCsp(c: Csp): Csp {
    Csp(SortedSources(c.connectSrc), SortedSources(c.imgSrc), SortedSources(c.frameAncestors),
        MapOption(SortedSources, c.scriptSrc), MapOption(SortedSources, c.frameSrc), MapOption(SortedSources, c.styleSrc),
        MapOption(SortedSources, c.fontSrc), MapOption(SortedSources, c.workerSrc))
  }

  ghost predicate SameSources(a: seq<CspSource>, b: seq<CspSource>) {
    multiset(a) == multiset(b)
  }

  ghost predicate PermutedCsp(a: Csp, b: Csp) {
    && SameSources(a.connectSrc, b.connectSrc) && SameSources(a.imgSrc, b.imgSrc)
    && SameSources(a.frameAncestors, b.frameAncestors)
    && RelatedOption(SameSources, a.scriptSrc, b.scriptSrc) && RelatedOption(SameSources, a.frameSrc, b.frameSrc)
    && RelatedOption(SameSources, a.styleSrc, b.styleSrc) && RelatedOption(SameSources, a.fontSrc, b.fontSrc)
    && RelatedOption(SameSources, a.workerSrc, b.workerSrc)
  }

  ghost predicate OptionalOriginsDiffer(sources: Option<seq<CspSource>>) {
    sources.Some? ==> OriginsDiffer(sources.value)
  }

  /** No CSP list names one origin twice. */
  ghost predicate CspOriginsDiffer(c: Csp) {
    && OriginsDiffer(c.connectSrc) && OriginsDiffer(c.imgSrc) && OriginsDiffer(c.frameAncestors)
    && OptionalOriginsDiffer(c.scriptSrc) && OptionalOriginsDiffer(c.frameSrc) && OptionalOriginsDiffer(c.styleSrc)
    && OptionalOriginsDiffer(c.fontSrc) && OptionalOriginsDiffer(c.workerSrc)
  }

  lemma OptionalSourcesIff(a: Option<seq<CspSource>>, b: Option<seq<CspSource>>)
    requires OptionalOriginsDiffer(a)
    ensures MapOption(SortedSources, a) == MapOption(SortedSources, b) <==> RelatedOption(SameSources, a, b)
  {
    if a.Some? && b.Some? {
      SourcesIffPermuted(a.value, b.value);
    }
  }

  lemma CspIffPermuted(a: Csp, b: Csp)
    requires CspOriginsDiffer(a)
    ensures CanonicalCsp(a) == CanonicalCsp(b) <==> PermutedCsp(a, b)
  {
    SourcesIffPermuted(a.connectSrc, b.connectSrc);
    SourcesIffPermuted(a.imgSrc, b.imgSrc);
    SourcesIffPermuted(a.frameAncestors, b.frameAncestors);
    OptionalSourcesIff(a.scriptSrc, b.scriptSrc);
    OptionalSourcesIff(a.frameSrc, b.frameSrc);
    OptionalSourcesIff(a.styleSrc, b.styleSrc);
    OptionalSourcesIff(a.fontSrc, b.fontSrc);
    OptionalSourcesIff(a.workerSrc, b.workerSrc);
    hide MapOption, RelatedOption, SortedSources, OriginsDiffer;
  }

  lemma OptionalSourcesTwice(a: Option<seq<CspSource>>)
    ensures MapOption(SortedSources, MapOption(SortedSources, a)) == MapOption(SortedSources, a)
  {
    if a.Some? {
      SourcesTwice(a.value);
    }
  }

  lemma CspTwice(c: Csp)
    ensures CanonicalCsp(CanonicalCsp(c)) == CanonicalCsp(c)
  {
    SourcesTwice(c.connectSrc);
    SourcesTwice(c.imgSrc);
    SourcesTwice(c.frameAncestors);
    OptionalSourcesTwice(c.scriptSrc);
    OptionalSourcesTwice(c.frameSrc);
    OptionalSourcesTwice(c.styleSrc);
    OptionalSourcesTwice(c.fontSrc);
    OptionalSourcesTwice(c.workerSrc);
    hide MapOption, SortedSources;
  }

  // ----- tables

  /** `canonicalActions`: only a list has an order to lose. */
  function CanonicalActions(a: TableActions): TableActions {
    match a case One(_) => a case Several(actions) => Several(Sorted(actions))
  }

  ghost predicate PermutedActions(a: TableActions, b: TableActions) {
    match a case One(_) => a == b case Several(actions) => b.Several? && SameNames(actions, b.actions)
  }

  lemma ActionsIsPermuted(x: TableActions, y: TableActions)
    ensures CanonicalActions(x) == CanonicalActions(y) <==> PermutedActions(x, y)
    ensures CanonicalActions(CanonicalActions(x)) == CanonicalActions(x)
  {
    hide Sorted, SameNames;
    if x.Several? {
      Names(x.actions, if y.Several? then y.actions else []);
    }
  }

  lemma ActionsCanonicalize()
    ensures Canonicalizes(CanonicalActions, PermutedActions)
  {
    hide CanonicalActions, PermutedActions;
    forall x, y ensures CanonicalActions(x) == CanonicalActions(y) <==> PermutedActions(x, y) {
      ActionsIsPermuted(x, y);
    }
    forall x ensures CanonicalActions(CanonicalActions(x)) == CanonicalActions(x) {
      ActionsIsPermuted(x, x);
    }
  }

  function CanonicalPolicyActions(p: PolicyActions): PolicyActions {
    PolicyActions(
      CanonicalActions(p.read), MapOption(CanonicalActions, p.insert), MapOption(CanonicalActions, p.update),
      MapOption(CanonicalActions, p.delete), MapOption(Sorted, p.appRead), MapOption(Sorted, p.appCount))
  }

  ghost predicate PermutedPolicyActions(a: PolicyActions, b: PolicyActions) {
    && PermutedActions(a.read, b.read) && RelatedOption(PermutedActions, a.insert, b.insert)
    && RelatedOption(PermutedActions, a.update, b.update) && RelatedOption(PermutedActions, a.delete, b.delete)
    && RelatedOption(SameNames, a.appRead, b.appRead) && RelatedOption(SameNames, a.appCount, b.appCount)
  }

  lemma PolicyActionsCanonicalize(a: PolicyActions, b: PolicyActions)
    ensures CanonicalPolicyActions(a) == CanonicalPolicyActions(b) <==> PermutedPolicyActions(a, b)
    ensures CanonicalPolicyActions(CanonicalPolicyActions(a)) == CanonicalPolicyActions(a)
  {
    ActionsCanonicalize();
    assert CanonicalActions(a.read) == CanonicalActions(b.read) <==> PermutedActions(a.read, b.read);
    assert CanonicalActions(CanonicalActions(a.read)) == CanonicalActions(a.read);
    hide CanonicalActions, PermutedActions, MapOption, RelatedOption, Sorted, SameNames;
    OptionCanonicalizes(CanonicalActions, PermutedActions, a.insert, b.insert);
    OptionCanonicalizes(CanonicalActions, PermutedActions, a.update, b.update);
    OptionCanonicalizes(CanonicalActions, PermutedActions, a.delete, b.delete);
    OptionalNames(a.appRead, b.appRead);
    OptionalNames(a.appCount, b.appCount);
  }

  /** Of the scopes only a child's has a list without an order. */
  function CanonicalScope(s: TableScope): TableScope {
    match s case Child(_, _, _, inherit) => s.(inherit := Sorted(inherit)) case _ => s
  }

  ghost predicate PermutedScope(a: TableScope, b: TableScope) {
    match a
    case Child(parent, key, column, inherit) =>
      b.Child? && parent == b.parent && key == b.key && column == b.column && SameNames(inherit, b.inherit)
    case _ => a == b
  }

  lemma ScopeCanonicalizes(a: TableScope, b: TableScope)
    ensures CanonicalScope(a) == CanonicalScope(b) <==> PermutedScope(a, b)
    ensures CanonicalScope(CanonicalScope(a)) == CanonicalScope(a)
  {
    hide Sorted, SameNames;
    if a.Child? {
      Names(a.inherit, if b.Child? then b.inherit else []);
    }
  }

  /** `canonicalTable`. */
  function CanonicalTable(t: TablePolicy): TablePolicy {
    t.(scope := CanonicalScope(t.scope), actions := CanonicalPolicyActions(t.actions), insert := Sorted(t.insert), update := Sorted(t.update))
  }

  ghost predicate PermutedTable(a: TablePolicy, b: TablePolicy) {
    && a.version == b.version && a.createdBy == b.createdBy && a.columns == b.columns && a.files == b.files && a.view == b.view
    && PermutedScope(a.scope, b.scope) && PermutedPolicyActions(a.actions, b.actions)
    && SameNames(a.insert, b.insert) && SameNames(a.update, b.update)
  }

  lemma TableIsPermuted(x: TablePolicy, y: TablePolicy)
    ensures CanonicalTable(x) == CanonicalTable(y) <==> PermutedTable(x, y)
    ensures CanonicalTable(CanonicalTable(x)) == CanonicalTable(x)
  {
    hide Sorted, SameNames, CanonicalScope, PermutedScope, CanonicalPolicyActions, PermutedPolicyActions;
    ScopeCanonicalizes(x.scope, y.scope);
    PolicyActionsCanonicalize(x.actions, y.actions);
    Names(x.insert, y.insert);
    Names(x.update, y.update);
  }

  lemma TablesCanonicalize()
    ensures Canonicalizes(CanonicalTable, PermutedTable)
  {
    hide CanonicalTable, PermutedTable;
    forall x, y ensures CanonicalTable(x) == CanonicalTable(y) <==> PermutedTable(x, y) {
      TableIsPermuted(x, y);
    }
    forall x ensures CanonicalTable(CanonicalTable(x)) == CanonicalTable(x) {
      TableIsPermuted(x, x);
    }
  }

  // ----- declared reaches, procedures, tokens

  function CanonicalReach(r: Reach): Reach {
    r.(connect := Sorted(r.connect), actions := MapOption(Sorted, r.actions), kicks := MapOption(Sorted, r.kicks),
       signs := MapOption(Sorted, r.signs), egress := MapOption(Sorted, r.egress))
  }

  ghost predicate PermutedReach(a: Reach, b: Reach) {
    && a.sql == b.sql && a.unscoped == b.unscoped && a.issues == b.issues && a.job == b.job && a.mailer == b.mailer && a.binds == b.binds
    && SameNames(a.connect, b.connect) && RelatedOption(SameNames, a.actions, b.actions)
    && RelatedOption(SameNames, a.kicks, b.kicks) && RelatedOption(SameNames, a.signs, b.signs)
    && RelatedOption(SameNames, a.egress, b.egress)
  }

  lemma ReachIsPermuted(x: Reach, y: Reach)
    ensures CanonicalReach(x) == CanonicalReach(y) <==> PermutedReach(x, y)
    ensures CanonicalReach(CanonicalReach(x)) == CanonicalReach(x)
  {
    hide Sorted, SameNames, MapOption, RelatedOption;
    Names(x.connect, y.connect);
    OptionalNames(x.actions, y.actions);
    OptionalNames(x.kicks, y.kicks);
    OptionalNames(x.signs, y.signs);
    OptionalNames(x.egress, y.egress);
  }

  lemma ReachesCanonicalize()
    ensures Canonicalizes(CanonicalReach, PermutedReach)
  {
    hide CanonicalReach, PermutedReach;
    forall x, y ensures CanonicalReach(x) == CanonicalReach(y) <==> PermutedReach(x, y) {
      ReachIsPermuted(x, y);
    }
    forall x ensures CanonicalReach(CanonicalReach(x)) == CanonicalReach(x) {
      ReachIsPermuted(x, x);
    }
  }

  function CanonicalProcedure(p: Procedure): Procedure {
    Procedure(p.rules, MapOption(CanonicalShape, p.query))
  }

  ghost predicate PermutedProcedure(a: Procedure, b: Procedure) {
    a.rules == b.rules && RelatedOption(Permuted, a.query, b.query)
  }

  lemma ProcedureIsPermuted(x: Procedure, y: Procedure)
    ensures CanonicalProcedure(x) == CanonicalProcedure(y) <==> PermutedProcedure(x, y)
    ensures CanonicalProcedure(CanonicalProcedure(x)) == CanonicalProcedure(x)
  {
    hide CanonicalShape, Permuted;
    if x.query.Some? {
      CanonicalTwice(x.query.value);
      if y.query.Some? {
        CanonicalIffPermuted(x.query.value, y.query.value);
      }
    }
  }

  lemma ProceduresCanonicalize()
    ensures Canonicalizes(CanonicalProcedure, PermutedProcedure)
  {
    hide CanonicalProcedure, PermutedProcedure;
    forall x, y ensures CanonicalProcedure(x) == CanonicalProcedure(y) <==> PermutedProcedure(x, y) {
      ProcedureIsPermuted(x, y);
    }
    forall x ensures CanonicalProcedure(CanonicalProcedure(x)) == CanonicalProcedure(x) {
      ProcedureIsPermuted(x, x);
    }
  }

  function CanonicalToken(t: TokenPurpose): TokenPurpose {
    TokenPurpose(CanonicalShape(t.claims), t.maxDays)
  }

  ghost predicate PermutedToken(a: TokenPurpose, b: TokenPurpose) {
    Permuted(a.claims, b.claims) && a.maxDays == b.maxDays
  }

  lemma TokenIsPermuted(x: TokenPurpose, y: TokenPurpose)
    ensures CanonicalToken(x) == CanonicalToken(y) <==> PermutedToken(x, y)
    ensures CanonicalToken(CanonicalToken(x)) == CanonicalToken(x)
  {
    hide CanonicalShape, Permuted;
    CanonicalIffPermuted(x.claims, y.claims);
    CanonicalTwice(x.claims);
  }

  lemma TokensCanonicalize()
    ensures Canonicalizes(CanonicalToken, PermutedToken)
  {
    hide CanonicalToken, PermutedToken;
    forall x, y ensures CanonicalToken(x) == CanonicalToken(y) <==> PermutedToken(x, y) {
      TokenIsPermuted(x, y);
    }
    forall x ensures CanonicalToken(CanonicalToken(x)) == CanonicalToken(x) {
      TokenIsPermuted(x, x);
    }
  }

  // ----- optional records

  function MapRecord<T>(f: T -> T, o: Option<map<string, T>>): Option<map<string, T>> {
    match o case None => None case Some(m) => Some(MapValues(f, m))
  }

  ghost predicate RelatedRecord<T>(same: (T, T) -> bool, a: Option<map<string, T>>, b: Option<map<string, T>>) {
    match a case None => b == None case Some(m) => b.Some? && RelatedValues(same, m, b.value)
  }

  lemma RecordCanonicalizes<T(!new)>(f: T -> T, same: (T, T) -> bool, a: Option<map<string, T>>, b: Option<map<string, T>>)
    requires Canonicalizes(f, same)
    ensures MapRecord(f, a) == MapRecord(f, b) <==> RelatedRecord(same, a, b)
    ensures MapRecord(f, MapRecord(f, a)) == MapRecord(f, a)
  {
    hide Canonicalizes, MapValues, RelatedValues;
    if a.Some? {
      ValuesCanonicalize(f, same, a.value, if b.Some? then b.value else map[]);
    }
  }

  // ----- the whole artifact

  /** `canonicalizeArtifact`. */
  function CanonicalArtifact(a: Artifact): Artifact
    requires ValidEndpoints(a.endpoints)
  {
    Artifact(
      a.format, a.app, a.dimensions, a.actions, MapValues(CanonicalRole, a.roles), MapValues(CanonicalMount, a.mounts),
      MapValues(CanonicalFiles, a.files), MapRecord(CanonicalKind, a.fileKinds), MapValues(CanonicalJob, a.jobs),
      MapValues(CanonicalExport, a.exports), MapValues(CanonicalImport, a.imports), CanonicalCsp(a.csp),
      MapValues(CanonicalTable, a.tables), SortedEndpoints(a.endpoints), Sorted(a.reservedPrefixes),
      MapRecord(CanonicalReach, a.declared), a.directories, a.locale, a.displayName, a.mail, a.members, a.directory, a.terminal,
      MapRecord(CanonicalProcedure, a.procedures), MapRecord(CanonicalToken, a.tokens))
  }

  /** The fields that are copied as they are. */
  ghost predicate CopiedAlike(a: Artifact, b: Artifact) {
    && a.format == b.format && a.app == b.app && a.dimensions == b.dimensions && a.actions == b.actions
    && a.directories == b.directories && a.locale == b.locale && a.displayName == b.displayName && a.mail == b.mail
    && a.members == b.members && a.directory == b.directory && a.terminal == b.terminal
  }

  /** The artifacts differ only in the order of lists whose order carries no meaning. */
  ghost predicate PermutedArtifact(a: Artifact, b: Artifact) {
    && CopiedAlike(a, b)
    && PermutedAccess(a, b) && PermutedReaches(a, b)
    && PermutedCsp(a.csp, b.csp) && PermutedEndpoints(a.endpoints, b.endpoints) && SameNames(a.reservedPrefixes, b.reservedPrefixes)
  }

  ghost predicate PermutedAccess(a: Artifact, b: Artifact) {
    && RelatedValues(PermutedRole, a.roles, b.roles) && RelatedValues(PermutedMount, a.mounts, b.mounts)
    && RelatedValues(PermutedFiles, a.files, b.files) && RelatedRecord(PermutedKind, a.fileKinds, b.fileKinds)
    && RelatedValues(PermutedJob, a.jobs, b.jobs) && RelatedValues(PermutedTable, a.tables, b.tables)
  }

  ghost predicate PermutedReaches(a: Artifact, b: Artifact) {
    && RelatedValues(PermutedExport, a.exports, b.exports) && RelatedValues(PermutedImport, a.imports, b.imports)
    && RelatedRecord(PermutedReach, a.declared, b.declared) && RelatedRecord(PermutedProcedure, a.procedures, b.procedures)
    && RelatedRecord(PermutedToken, a.tokens, b.tokens)
  }

  /** What the contract build holds an artifact to: no endpoint id twice, and no origin twice in one CSP list. */
  ghost predicate Unambiguous(a: Artifact) {
    IdsDiffer(a.endpoints) && CspOriginsDiffer(a.csp)
  }

  /** The fields of both artifacts that `PermutedAccess` compares have one canonical form each. */
  ghost predicate SameAccess(a: Artifact, b: Artifact) {
    && MapValues(CanonicalRole, a.roles) == MapValues(CanonicalRole, b.roles)
    && MapValues(CanonicalMount, a.mounts) == MapValues(CanonicalMount, b.mounts)
    && MapValues(CanonicalFiles, a.files) == MapValues(CanonicalFiles, b.files)
    && MapRecord(CanonicalKind, a.fileKinds) == MapRecord(CanonicalKind, b.fileKinds)
    && MapValues(CanonicalJob, a.jobs) == MapValues(CanonicalJob, b.jobs)
    && MapValues(CanonicalTable, a.tables) == MapValues(CanonicalTable, b.tables)
  }

  ghost predicate SameReaches(a: Artifact, b: Artifact) {
    && MapValues(CanonicalExport, a.exports) == MapValues(CanonicalExport, b.exports)
    && MapValues(CanonicalImport, a.imports) == MapValues(CanonicalImport, b.imports)
    && MapRecord(CanonicalReach, a.declared) == MapRecord(CanonicalReach, b.declared)
    && MapRecord(CanonicalProcedure, a.procedures) == MapRecord(CanonicalProcedure, b.procedures)
    && MapRecord(CanonicalToken, a.tokens) == MapRecord(CanonicalToken, b.tokens)
  }

  lemma AccessCanonicalizes(a: Artifact, b: Artifact)
    ensures SameAccess(a, b) <==> PermutedAccess(a, b)
    ensures MapValues(CanonicalRole, MapValues(CanonicalRole, a.roles)) == MapValues(CanonicalRole, a.roles)
    ensures MapValues(CanonicalMount, MapValues(CanonicalMount, a.mounts)) == MapValues(CanonicalMount, a.mounts)
    ensures MapValues(CanonicalFiles, MapValues(CanonicalFiles, a.files)) == MapValues(CanonicalFiles, a.files)
    ensures MapRecord(CanonicalKind, MapRecord(CanonicalKind, a.fileKinds)) == MapRecord(CanonicalKind, a.fileKinds)
    ensures MapValues(CanonicalJob, MapValues(CanonicalJob, a.jobs)) == MapValues(CanonicalJob, a.jobs)
    ensures MapValues(CanonicalTable, MapValues(CanonicalTable, a.tables)) == MapValues(CanonicalTable, a.tables)
  {
    RolesCanonicalize();
    MountsCanonicalize();
    FilesCanonicalize();
    KindsCanonicalize();
    JobsCanonicalize();
    TablesCanonicalize();
    hide Canonicalizes, MapValues, RelatedValues, MapRecord, RelatedRecord;
    ValuesCanonicalize(CanonicalRole, PermutedRole, a.roles, b.roles);
    ValuesCanonicalize(CanonicalMount, PermutedMount, a.mounts, b.mounts);
    ValuesCanonicalize(CanonicalFiles, PermutedFiles, a.files, b.files);
    RecordCanonicalizes(CanonicalKind, PermutedKind, a.fileKinds, b.fileKinds);
    ValuesCanonicalize(CanonicalJob, PermutedJob, a.jobs, b.jobs);
    ValuesCanonicalize(CanonicalTable, PermutedTable, a.tables, b.tables);
  }

  lemma ReachesOfArtifact(a: Artifact, b: Artifact)
    ensures SameReaches(a, b) <==> PermutedReaches(a, b)
    ensures MapValues(CanonicalExport, MapValues(CanonicalExport, a.exports)) == MapValues(CanonicalExport, a.exports)
    ensures MapValues(CanonicalImport, MapValues(CanonicalImport, a.imports)) == MapValues(CanonicalImport, a.imports)
    ensures MapRecord(CanonicalReach, MapRecord(CanonicalReach, a.declared)) == MapRecord(CanonicalReach, a.declared)
    ensures MapRecord(CanonicalProcedure, MapRecord(CanonicalProcedure, a.procedures)) == MapRecord(CanonicalProcedure, a.procedures)
    ensures MapRecord(CanonicalToken, MapRecord(CanonicalToken, a.tokens)) == MapRecord(CanonicalToken, a.tokens)
  {
    ExportsCanonicalize();
    ImportsCanonicalize();
    ReachesCanonicalize();
    ProceduresCanonicalize();
    TokensCanonicalize();
    hide Canonicalizes, MapValues, RelatedValues, MapRecord, RelatedRecord;
    ValuesCanonicalize(CanonicalExport, PermutedExport, a.exports, b.exports);
    ValuesCanonicalize(CanonicalImport, PermutedImport, a.imports, b.imports);
    RecordCanonicalizes(CanonicalReach, PermutedReach, a.declared, b.declared);
    RecordCanonicalizes(CanonicalProcedure, PermutedProcedure, a.procedures, b.procedures);
    RecordCanonicalizes(CanonicalToken, PermutedToken, a.tokens, b.tokens);
  }

  /** Two unambiguous artifacts have one canonical form exactly when they differ only in order that carries no meaning. */
  lemma ArtifactIffPermuted(a: Artifact, b: Artifact)
    requires ValidEndpoints(a.endpoints) && ValidEndpoints(b.endpoints) && Unambiguous(a)
    ensures CanonicalArtifact(a) == CanonicalArtifact(b) <==> PermutedArtifact(a, b)
  {
    AccessCanonicalizes(a, b);
    ReachesOfArtifact(a, b);
    CspIffPermuted(a.csp, b.csp);
    EndpointsIffPermuted(a.endpoints, b.endpoints);
    Names(a.reservedPrefixes, b.reservedPrefixes);
    ArtifactByFields(a, b);
    hide CopiedAlike, SameAccess, SameReaches, PermutedAccess, PermutedReaches, PermutedCsp, PermutedEndpoints, SameNames, CanonicalArtifact;
  }

  lemma ArtifactByFields(a: Artifact, b: Artifact)
    requires ValidEndpoints(a.endpoints) && ValidEndpoints(b.endpoints)
    ensures CanonicalArtifact(a) == CanonicalArtifact(b) <==>
              && CopiedAlike(a, b) && SameAccess(a, b) && SameReaches(a, b) && CanonicalCsp(a.csp) == CanonicalCsp(b.csp)
              && SortedEndpoints(a.endpoints) == SortedEndpoints(b.endpoints)
              && Sorted(a.reservedPrefixes) == Sorted(b.reservedPrefixes)
  {
    hide MapValues, MapRecord, CanonicalCsp, SortedEndpoints, Sorted, ValidEndpoints;
  }

  /** Canonicalizing an artifact twice is canonicalizing it once, ambiguous or not: the sort is stable. */
  lemma ArtifactTwice(a: Artifact)
    requires ValidEndpoints(a.endpoints)
    ensures ValidEndpoints(CanonicalArtifact(a).endpoints) && CanonicalArtifact(CanonicalArtifact(a)) == CanonicalArtifact(a)
  {
    AccessCanonicalizes(a, a);
    ReachesOfArtifact(a, a);
    CspTwice(a.csp);
    EndpointsTwice(a.endpoints);
    SortedTwice(a.reservedPrefixes);
    hide MapValues, MapRecord, CanonicalCsp, SortedEndpoints, Sorted, ValidEndpoints;
  }
}
