/** The domains of one organization: roots with one level of subdomains, inherited verification,
    and adding a detected domain with its family (backend/app/services/domain_setup.py,
    backend/app/routers/domains.py, backend/app/repositories/domains.py). */
module DomainForest {
  import opened Wrappers
  import opened Names

  datatype Domain = Domain(parent: Option<string>, verified: bool)

  /** Names are unique and never change, so a name stands for its row. */
  type Forest = map<string, Domain>

  predicate IsRoot(f: Forest, n: string) {
    n in f && f[n].parent.None?
  }

  ghost predicate ChildOk(f: Forest, n: string)
    requires n in f && f[n].parent.Some?
  {
    var p := f[n].parent.value;
    IsRoot(f, p) && EndsWith(n, "." + p) && (f[p].verified ==> f[n].verified)
  }

  /** One level of nesting, children named under their parent and verified with it. */
  ghost predicate ForestOk(f: Forest) {
    forall n | n in f && f[n].parent.Some? :: ChildOk(f, n)
  }

  ghost predicate VerificationKept(f: Forest, g: Forest) {
    forall n | n in f && n in g && f[n].verified :: g[n].verified
  }

  predicate HasSubdomains(f: Forest, n: string) {
    exists m | m in f :: f[m].parent == Some(n)
  }

  // ----- one domain

  datatype CreateError = ParentNotFound | ParentNotApex | NotASubdomain | AlreadyRegistered

  function CreateRefusal(f: Forest, name: string, parent: Option<string>): Option<CreateError> {
    if parent.Some? && parent.value !in f then Some(ParentNotFound)
    else if parent.Some? && f[parent.value].parent.Some? then Some(ParentNotApex)
    else if parent.Some? && !EndsWith(name, "." + parent.value) then Some(NotASubdomain)
    else if name in f then Some(AlreadyRegistered)
    else None
  }

  function WithDomain(f: Forest, name: string, parent: Option<string>): Forest
    requires parent.Some? ==> parent.value in f
  {
    f[name := Domain(parent, parent.Some? && f[parent.value].verified)]
  }

  /** The DNS challenge passed: the domain, and a root's subdomains with it. */
  function WithVerified(f: Forest, n: string): Forest
    requires n in f
  {
    if f[n].verified then f
    else
      map m | m in f ::
        if m == n || (f[n].parent.None? && f[m].parent == Some(n)) then f[m].(verified := true) else f[m]
  }

  function Without(f: Forest, n: string): Forest {
    map m | m in f && m != n :: f[m]
  }

  lemma CreateKeepsForest(f: Forest, name: string, parent: Option<string>)
    requires ForestOk(f) && CreateRefusal(f, name, parent).None?
    ensures ForestOk(WithDomain(f, name, parent)) && VerificationKept(f, WithDomain(f, name, parent))
  {
    var g := WithDomain(f, name, parent);
    forall n | n in g && g[n].parent.Some?
      ensures ChildOk(g, n)
    {
      assert n != name ==> ChildOk(f, n);
    }
  }

  lemma VerifyKeepsForest(f: Forest, n: string)
    requires ForestOk(f) && n in f
    ensures ForestOk(WithVerified(f, n)) && VerificationKept(f, WithVerified(f, n)) && WithVerified(f, n)[n].verified
  {
    var g := WithVerified(f, n);
    forall m | m in g && g[m].parent.Some?
      ensures ChildOk(g, m)
    {
      assert ChildOk(f, m);
    }
  }

  lemma DeleteKeepsForest(f: Forest, n: string)
    requires ForestOk(f) && !HasSubdomains(f, n)
    ensures ForestOk(Without(f, n)) && VerificationKept(f, Without(f, n))
  {
    var g := Without(f, n);
    forall m | m in g && g[m].parent.Some?
      ensures ChildOk(g, m)
    {
      assert ChildOk(f, m);
    }
  }

  // ----- a family

  predicate IsAncestorRoot(f: Forest, name: string, r: string) {
    IsRoot(f, r) && EndsWith(name, "." + r)
  }

  /** The longest registered root above `name`. */
  predicate IsClosestRoot(f: Forest, name: string, r: string) {
    IsAncestorRoot(f, name, r) && forall q | q in f :: IsAncestorRoot(f, name, q) ==> |q| <= |r|
  }

  lemma ClosestRootIsUnique(f: Forest, name: string, r: string, q: string)
    requires IsClosestRoot(f, name, r) && IsClosestRoot(f, name, q)
    ensures r == q
  {
    var k := |name| - |r| - 1;
    assert name[k..][1..] == ("." + r)[1..] == r && name[k..][1..] == ("." + q)[1..] == q;
  }

  /** The names the family adds: its root if new, the name itself, and its detected subdomains. */
  function FamilyNames(f: Forest, root: string, name: string, detected: seq<string>): set<string> {
    (if root in f then {} else {root}) + {name} + set o | o in detected && EndsWith(o, "." + root) && o !in f
  }

  predicate Moves(f: Forest, root: string, n: string) {
    IsRoot(f, n) && n != root && EndsWith(n, "." + root) && !HasSubdomains(f, n)
  }

  function WithFamily(f: Forest, root: string, names: set<string>): Forest {
    var verified := root in f && f[root].verified;
    map n | n in f.Keys + names ::
      if n in f then (if Moves(f, root, n) then Domain(Some(root), f[n].verified || verified) else f[n])
      else if n == root then Domain(None, false)
      else Domain(Some(root), verified)
  }

  ghost predicate FamilyFits(f: Forest, root: string, names: set<string>) {
    && names !! f.Keys
    && (if root in f then IsRoot(f, root) else root in names)
    && (forall n | n in names :: n == root || EndsWith(n, "." + root))
  }

  lemma FamilyKeepsForest(f: Forest, root: string, names: set<string>)
    requires ForestOk(f) && FamilyFits(f, root, names)
    ensures ForestOk(WithFamily(f, root, names)) && VerificationKept(f, WithFamily(f, root, names))
  {
    var g := WithFamily(f, root, names);
    forall n | n in g && g[n].parent.Some?
      ensures ChildOk(g, n)
    {
      if n in f && !Moves(f, root, n) {
        assert ChildOk(f, n);
        assert HasSubdomains(f, f[n].parent.value);
      }
    }
  }

  /** Everything detected under the root is registered, every root-level domain under it that
      could move is its child, and nothing else moved. */
  lemma FamilyIsComplete(f: Forest, root: string, name: string, detected: seq<string>)
    requires ForestOk(f)
    ensures var g := WithFamily(f, root, FamilyNames(f, root, name, detected));
            && (forall o | o in detected && EndsWith(o, "." + root) :: o in g)
            && (forall o | IsRoot(f, o) && o != root && EndsWith(o, "." + root) ::
                  g[o].parent == if HasSubdomains(f, o) then None else Some(root))
            && (forall o | o in f && !Moves(f, root, o) :: g[o] == f[o])
  {
    assert forall o | IsRoot(f, o) :: o in f;
  }
}
