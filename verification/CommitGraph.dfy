/**
 What git keeps, as far as ref policy reads it: commits with their parents and
 other objects, only ever added; refs; and the ancestor question that
 `git merge-base --is-ancestor` answers (crates/jeryu-gitd/src/object_fsck.rs).
 */
module CommitGraph {
  import opened Common

  type Oid = string

  /** Parents of every commit. */
  type Graph = map<Oid, seq<Oid>>

  /** Commits are content addressed: later graphs keep every commit and its parents. */
  ghost predicate Extends(g: Graph, g': Graph) {
    forall c | c in g :: c in g' && g'[c] == g[c]
  }

  /** `p` walks from an ancestor down to a descendant, one parent link at a time. */
  ghost predicate IsPath(g: Graph, p: seq<Oid>) {
    && p != []
    && (forall i | 0 <= i < |p| :: p[i] in g)
    && (forall i | 0 <= i < |p| - 1 :: p[i] in g[p[i + 1]])
  }

  /** A commit is its own ancestor. */
  ghost predicate Ancestor(g: Graph, a: Oid, b: Oid) {
    exists p :: IsPath(g, p) && p[0] == a && p[|p| - 1] == b
  }

  lemma AncestorOfItself(g: Graph, a: Oid)
    requires a in g
    ensures Ancestor(g, a, a)
  {
    assert IsPath(g, [a]);
  }

  lemma ParentIsAncestor(g: Graph, a: Oid, b: Oid)
    requires a in g && b in g && a in g[b]
    ensures Ancestor(g, a, b)
  {
    assert IsPath(g, [a, b]);
  }

  lemma AncestorIsTransitive(g: Graph, a: Oid, b: Oid, c: Oid)
    requires Ancestor(g, a, b) && Ancestor(g, b, c)
    ensures Ancestor(g, a, c)
  {
    var p :| IsPath(g, p) && p[0] == a && p[|p| - 1] == b;
    var q :| IsPath(g, q) && q[0] == b && q[|q| - 1] == c;
    var r := p + q[1..];
    assert forall i | |p| - 1 <= i < |r| :: r[i] == q[i - |p| + 1];
    assert forall i | 0 <= i < |p| :: r[i] == p[i];
    assert IsPath(g, r);
    assert r[|r| - 1] == c;
  }

  lemma AncestorSurvives(g: Graph, g': Graph, a: Oid, b: Oid)
    requires Extends(g, g') && Ancestor(g, a, b)
    ensures Ancestor(g', a, b)
  {
    var p :| IsPath(g, p) && p[0] == a && p[|p| - 1] == b;
    assert IsPath(g', p);
  }

  // ----- what else a repository holds -----

  /**
   The objects and refs of a repository. `others` are the objects that are no
   commits, with the commit an annotated tag peels to.
   */
  datatype Store = Store(commits: Graph, others: map<Oid, Option<Oid>>, refs: map<string, Oid>)

  predicate IsZeroOid(oid: string) {
    |oid| == 40 && forall i | 0 <= i < |oid| :: oid[i] == '0'
  }

  /** A whole object id: git reads it as itself, whatever the refs say. */
  predicate IsFullOid(rev: string) {
    |rev| == 40 && forall i | 0 <= i < |rev| :: '0' <= rev[i] <= '9' || 'a' <= rev[i] <= 'f'
  }

  /** How git reads every other revision: branch names, abbreviations, and what it makes of the rest. */
  type Names = (string, Store) -> Option<Oid>

  function Named(names: Names, s: Store, rev: string): Option<Oid> {
    if IsFullOid(rev) then Some(rev) else if rev == "" then None else names(rev, s)
  }

  function Peeled(s: Store, oid: Oid): Option<Oid> {
    if oid in s.commits then Some(oid) else if oid in s.others then s.others[oid] else None
  }

  /** The commit a revision stands for now. */
  function CommitOf(names: Names, s: Store, rev: string): Option<Oid> {
    match Named(names, s, rev)
    case None => None
    case Some(oid) => Peeled(s, oid)
  }

  /** The ancestor question for two objects. */
  ghost predicate Descends(s: Store, a: Oid, b: Oid) {
    Peeled(s, a).Some? && Peeled(s, b).Some? && Ancestor(s.commits, Peeled(s, a).value, Peeled(s, b).value)
  }

  /** The ancestor question for two revisions, as they read now. */
  ghost predicate IsAncestorNow(names: Names, s: Store, a: string, b: string) {
    && CommitOf(names, s, a).Some? && CommitOf(names, s, b).Some?
    && Ancestor(s.commits, CommitOf(names, s, a).value, CommitOf(names, s, b).value)
  }

  /** Branches hold commits, other refs any object; nothing has the id of all zeroes. */
  ghost predicate StoreOk(s: Store) {
    && (forall o | o in s.commits :: !IsZeroOid(o) && o !in s.others)
    && (forall o | o in s.others :: !IsZeroOid(o) && (s.others[o].Some? ==> s.others[o].value in s.commits))
    && (forall r | r in s.refs :: CanHold(s, r, s.refs[r]))
  }

  const HEADS := "refs/heads/"

  predicate CanHold(s: Store, name: string, oid: Oid) {
    oid in s.commits || (oid in s.others && !(HEADS <= name))
  }

  /** Objects are only ever added. */
  ghost predicate Grows(s: Store, s': Store) {
    Extends(s.commits, s'.commits) && forall o | o in s.others :: o in s'.others && s'.others[o] == s.others[o]
  }

  lemma PeeledStays(s: Store, s': Store, oid: Oid)
    requires Grows(s, s') && StoreOk(s) && StoreOk(s') && Peeled(s, oid).Some?
    ensures Peeled(s', oid) == Peeled(s, oid) && Peeled(s, oid).value in s.commits
  {
  }

  lemma DescendsStays(s: Store, s': Store, a: Oid, b: Oid)
    requires Grows(s, s') && StoreOk(s) && StoreOk(s') && Descends(s, a, b)
    ensures Descends(s', a, b)
  {
    PeeledStays(s, s', a);
    PeeledStays(s, s', b);
    AncestorSurvives(s.commits, s'.commits, Peeled(s, a).value, Peeled(s, b).value);
  }
}
