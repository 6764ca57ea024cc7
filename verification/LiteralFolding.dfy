/**
  Constant folding of string expressions, the walk that audits the maximal foldable ones, and how
  the rewrite of single literals relates to the rewrite of the folded text.
 */
module LiteralFolding {
  import opened Wrappers
  import opened Sequences
  import opened Numerals
  import opened Placeholders
  import opened GoStrings
  import opened PlaceholderAudit

  datatype Kind = StringKind | OtherKind

  datatype Operator = Add | OtherOperator

  /** A Go syntax tree. The text of a literal is what the source file has, quotes included. */
  datatype Node =
    | BasicLit(kind: Kind, text: string)
    | BinaryExpr(op: Operator, x: Node, y: Node)
    | OtherExpr(exprChildren: seq<Node>)
    | NonExpr(nodeChildren: seq<Node>)

  function Children(n: Node): seq<Node> {
    match n
    case BasicLit(_, _) => []
    case BinaryExpr(_, x, y) => [x, y]
    case OtherExpr(cs) => cs
    case NonExpr(cs) => cs
  }

  /** The value of a string literal or of a sum of foldable expressions. */
  function Literal(n: Node): Option<string> {
    match n
    case BasicLit(kind, text) => if kind != StringKind then None else Unquote(text)
    case BinaryExpr(op, x, y) =>
      if op != Add then None
      else
        var a := Literal(x);
        if a.None? then None
        else
          var b := Literal(y);
          if b.None? then None else Some(a.value + b.value)
    case _ => None
  }

  predicate HasMatch(s: string) {
    Captures(s) != []
  }

  predicate IsAudited(n: Node) {
    !n.NonExpr? && Literal(n).Some? && HasMatch(Literal(n).value)
  }

  // ----- The walk -----

  /** The child indices that lead from the root to a node. */
  type Path = seq<nat>

  /** What one printed line reports: where, and the captured indices. */
  datatype Report = Report(path: Path, indices: seq<Numeral>)

  /** The expressions at or below `n` on which the audit loop runs, in the order of the walk; `n` itself is at `at`. */
  ghost function Audited(n: Node, at: Path := []): seq<Path>
    decreases n, |Children(n)| + 1
  {
    if IsAudited(n) then [at] else AuditedBelow(n, at, 0)
  }

  ghost function AuditedBelow(n: Node, at: Path, k: nat): seq<Path>
    requires k <= |Children(n)|
    decreases n, |Children(n)| - k
  {
    if k == |Children(n)| then [] else Audited(Children(n)[k], at + [k]) + AuditedBelow(n, at, k + 1)
  }

  ghost function At(n: Node, p: Path): Option<Node>
    decreases p
  {
    if p == [] then Some(n)
    else if p[0] < |Children(n)| then At(Children(n)[p[0]], p[1..])
    else None
  }

  ghost predicate Foldable(n: Node, p: Path) {
    At(n, p).Some? && Literal(At(n, p).value).Some?
  }

  /** The node at `p` folds and nothing above it does. */
  ghost predicate MaximalFoldable(n: Node, p: Path) {
    Foldable(n, p) && forall k :: 0 <= k < |p| ==> !Foldable(n, p[..k])
  }

  /** The folded text at `p`; empty where nothing folds. */
  ghost function TextAt(n: Node, p: Path): string {
    if Foldable(n, p) then Literal(At(n, p).value).value else ""
  }

  // Matching is monotone: a match survives text put before or after it.

  lemma {:induction false} MatchSomewhere(s: string)
    ensures HasMatch(s) <==> exists i :: 0 <= i <= |s| && StartsPlaceholder(s[i..])
  {
    if s == [] {
    } else if StartsPlaceholder(s) {
      assert s[0..] == s;
    } else {
      MatchSomewhere(s[1..]);
      if HasMatch(s) {
        var i :| 0 <= i <= |s[1..]| && StartsPlaceholder(s[1..][i..]);
        assert s[1..][i..] == s[i + 1..];
      }
      if i :| 0 <= i <= |s| && StartsPlaceholder(s[i..]) {
        assert s[0..] == s;
        assert s[1..][i - 1..] == s[i..];
      }
    }
  }

  lemma MatchMonotone(a: string, b: string)
    ensures HasMatch(a) || HasMatch(b) ==> HasMatch(a + b)
  {
    MatchSomewhere(a);
    MatchSomewhere(b);
    MatchSomewhere(a + b);
    if i :| 0 <= i <= |a| && StartsPlaceholder(a[i..]) {
      assert StartsPlaceholder((a + b)[i..]);
    }
    if i :| 0 <= i <= |b| && StartsPlaceholder(b[i..]) {
      assert (a + b)[|a| + i..] == b[i..];
    }
  }

  /** Folding is downward closed, and below a foldable node without a match nothing is audited. */
  lemma {:induction false} NothingBelowUnmatched(n: Node, at: Path)
    requires Literal(n).Some? && !HasMatch(Literal(n).value)
    ensures Audited(n, at) == []
    decreases n
  {
    if n.BinaryExpr? {
      MatchMonotone(Literal(n.x).value, Literal(n.y).value);
      NothingBelowUnmatched(n.x, at + [0]);
      NothingBelowUnmatched(n.y, at + [1]);
      assert Children(n)[0] == n.x && Children(n)[1] == n.y;
      assert AuditedBelow(n, at, 2) == [];
      assert AuditedBelow(n, at, 1) == [];
    }
  }

  lemma {:induction false} AuditedInside(n: Node, at: Path, p: Path)
    requires p in Audited(n, at)
    ensures at <= p
    decreases n, |Children(n)| + 1
  {
    if !IsAudited(n) { AuditedBelowInside(n, at, 0, p); }
  }

  lemma {:induction false} AuditedBelowInside(n: Node, at: Path, k: nat, p: Path)
    requires k <= |Children(n)| && p in AuditedBelow(n, at, k)
    ensures at < p && k <= p[|at|] < |Children(n)| && p in Audited(Children(n)[p[|at|]], at + [p[|at|]])
    decreases n, |Children(n)| - k
  {
    if p in Audited(Children(n)[k], at + [k]) {
      AuditedInside(Children(n)[k], at + [k], p);
      assert p[|at|] == (at + [k])[|at|] && at == (at + [k])[..|at|];
    } else {
      AuditedBelowInside(n, at, k + 1, p);
    }
  }

  lemma {:induction false} AuditedBelowHas(n: Node, at: Path, k: nat, j: nat)
    requires k <= j < |Children(n)|
    ensures forall p :: p in Audited(Children(n)[j], at + [j]) ==> p in AuditedBelow(n, at, k)
    decreases j - k
  {
    if k < j { AuditedBelowHas(n, at, k + 1, j); }
  }

  lemma MaximalBelow(n: Node, p: Path)
    requires Literal(n).None? && p != []
    ensures MaximalFoldable(n, p) <==> p[0] < |Children(n)| && MaximalFoldable(Children(n)[p[0]], p[1..])
  {
    if p[0] < |Children(n)| {
      var c := Children(n)[p[0]];
      forall k | 0 < k <= |p| ensures At(n, p[..k]) == At(c, p[1..][..k - 1]) {
        assert p[..k][1..] == p[1..][..k - 1];
      }
      assert p[..|p|] == p && p[1..][..|p| - 1] == p[1..];
      if MaximalFoldable(c, p[1..]) {
        forall k | 0 <= k < |p| ensures !Foldable(n, p[..k]) {
          assert k > 0 ==> At(n, p[..k]) == At(c, p[1..][..k - 1]);
        }
      }
      if MaximalFoldable(n, p) {
        forall k | 0 <= k < |p| - 1 ensures !Foldable(c, p[1..][..k]) {
          assert At(n, p[..k + 1]) == At(c, p[1..][..k]);
        }
      }
    }
  }

  lemma {:induction false} WalkAuditsMaximal(n: Node, at: Path, p: Path)
    ensures at + p in Audited(n, at) <==> MaximalFoldable(n, p) && HasMatch(TextAt(n, p))
    decreases p
  {
    hide Unquote, HasMatch, AuditedBelow;
    if Literal(n).Some? {
      assert Foldable(n, []);
      if !HasMatch(Literal(n).value) { NothingBelowUnmatched(n, at); }
      if p != [] {
        assert p[..0] == [];
        assert |at + p| != |at|;
      } else {
        assert at + p == at;
      }
    } else if p == [] {
      assert at + p == at;
      if at in AuditedBelow(n, at, 0) { AuditedBelowInside(n, at, 0, at); }
    } else {
      WalkBelow(n, at, p);
      MaximalBelow(n, p);
      if p[0] < |Children(n)| {
        WalkAuditsMaximal(Children(n)[p[0]], at + [p[0]], p[1..]);
        assert at + [p[0]] + p[1..] == at + p;
      }
    }
  }

  lemma WalkBelow(n: Node, at: Path, p: Path)
    requires Literal(n).None? && p != []
    ensures at + p in Audited(n, at) <==> p[0] < |Children(n)| && at + p in Audited(Children(n)[p[0]], at + [p[0]])
  {
    assert (at + p)[|at|] == p[0];
    if at + p in AuditedBelow(n, at, 0) { AuditedBelowInside(n, at, 0, at + p); }
    if p[0] < |Children(n)| { AuditedBelowHas(n, at, 0, p[0]); }
  }

  /** The pruned walk audits exactly the maximal foldable expressions whose text has a match. */
  lemma WalkAuditsMaximalExactly(n: Node, p: Path)
    ensures p in Audited(n) <==> MaximalFoldable(n, p) && HasMatch(TextAt(n, p))
  {
    assert [] + p == p;
    WalkAuditsMaximal(n, [], p);
  }

  /** No audited expression contains another. */
  lemma AuditedAreDisjoint(n: Node, p: Path, q: Path)
    requires p in Audited(n) && q in Audited(n) && p <= q
    ensures p == q
  {
    WalkAuditsMaximalExactly(n, p);
    WalkAuditsMaximalExactly(n, q);
    assert q[..|p|] == p;
  }

  ghost predicate Distinct(ps: seq<Path>) {
    forall i, j :: 0 <= i < j < |ps| ==> ps[i] != ps[j]
  }

  /** No expression is audited twice. */
  lemma {:induction false} AuditedOnce(n: Node, at: Path := [])
    ensures Distinct(Audited(n, at))
    decreases n, |Children(n)| + 1
  {
    if !IsAudited(n) { AuditedBelowOnce(n, at, 0); }
  }

  lemma {:induction false} AuditedBelowOnce(n: Node, at: Path, k: nat)
    requires k <= |Children(n)|
    ensures Distinct(AuditedBelow(n, at, k))
    decreases n, |Children(n)| - k
  {
    if k < |Children(n)| {
      var ps, rest := Audited(Children(n)[k], at + [k]), AuditedBelow(n, at, k + 1);
      AuditedOnce(Children(n)[k], at + [k]);
      AuditedBelowOnce(n, at, k + 1);
      forall i, j | 0 <= i < |ps| && 0 <= j < |rest| ensures ps[i] != rest[j] {
        assert ps[i] in ps && rest[j] in rest;
        AuditedInside(Children(n)[k], at + [k], ps[i]);
        AuditedBelowInside(n, at, k + 1, rest[j]);
        assert ps[i][|at|] == (at + [k])[|at|];
      }
    }
  }

  lemma {:induction false} AtAppend(n: Node, p: Path, q: Path)
    requires At(n, p).Some?
    ensures At(n, p + q) == At(At(n, p).value, q)
    decreases p
  {
    if p == [] {
      assert p + q == q;
    } else {
      assert (p + q)[1..] == p[1..] + q;
      AtAppend(Children(n)[p[0]], p[1..], q);
    }
  }

  lemma {:induction false} MatchRises(n: Node, q: Path)
    requires Literal(n).Some? && HasMatch(TextAt(n, q))
    ensures HasMatch(Literal(n).value)
    decreases q
  {
    if q != [] {
      var c := Children(n)[q[0]];
      MatchRises(c, q[1..]);
      MatchMonotone(Literal(n.x).value, Literal(n.y).value);
    }
  }

  /** Every literal that holds a placeholder lies in exactly one audited expression. */
  lemma LeafAuditedOnce(n: Node, leaf: Path) returns (p: Path)
    requires HasMatch(TextAt(n, leaf))
    ensures p in Audited(n) && p <= leaf
    ensures forall q :: q in Audited(n) && q <= leaf ==> q == p
  {
    var k := 0;
    assert leaf[..|leaf|] == leaf;
    while !Foldable(n, leaf[..k])
      invariant 0 <= k <= |leaf|
      invariant forall i :: 0 <= i < k ==> !Foldable(n, leaf[..i])
      decreases |leaf| - k
    {
      k := k + 1;
    }
    p := leaf[..k];
    assert leaf == p + leaf[k..];
    AtAppend(n, p, leaf[k..]);
    MatchRises(At(n, p).value, leaf[k..]);
    forall i | 0 <= i < |p| ensures !Foldable(n, p[..i]) { assert p[..i] == leaf[..i]; }
    WalkAuditsMaximalExactly(n, p);
    forall q | q in Audited(n) && q <= leaf ensures q == p {
      assert if |q| <= |p| then q <= p else p <= q;
      if |q| <= |p| { AuditedAreDisjoint(n, q, p); } else { AuditedAreDisjoint(n, p, q); }
    }
  }

  // ----- The report -----

  /** The lines to print for one expression. */
  ghost function ReportAt(n: Node): Path -> seq<Report> {
    p => var ds := Captures(TextAt(n, p)); if Flagged(ds) then [Report(p, ds)] else []
  }

  ghost function Reports(n: Node): seq<Report> {
    FlatMap(Audited(n), ReportAt(n))
  }

  /** The walk with the audit loop at each foldable expression that has a match; `n` is the node of `root` at `at`. */
  method Inspect(ghost root: Node, n: Node, at: Path) returns (out: seq<Report>)
    requires At(root, at) == Some(n)
    ensures out == FlatMap(Audited(n, at), ReportAt(root))
    decreases n, 1
  {
    if !n.NonExpr? {
      var s := Literal(n);
      if s.Some? {
        var m := Captures(s.value);
        if |m| != 0 {
          var bad := Audit(m);
          AuditedHere(root, n, at);
          return if bad then [Report(at, m)] else [];
        }
      }
    }
    out := InspectChildren(root, n, at);
  }

  lemma AuditedHere(root: Node, n: Node, at: Path)
    requires At(root, at) == Some(n) && IsAudited(n)
    ensures var ds := Captures(Literal(n).value);
      FlatMap(Audited(n, at), ReportAt(root)) == if Flagged(ds) then [Report(at, ds)] else []
  {
    assert [at][1..] == [];
    assert TextAt(root, at) == Literal(n).value;
    assert FlatMap([at], ReportAt(root)) == ReportAt(root)(at) + [];
  }

  method InspectChildren(ghost root: Node, n: Node, at: Path) returns (out: seq<Report>)
    requires At(root, at) == Some(n)
    ensures out == FlatMap(AuditedBelow(n, at, 0), ReportAt(root))
    decreases n, 0
  {
    hide Literal, IsAudited, Audited, At, ReportAt;
    out := [];
    ghost var f := ReportAt(root);
    var cs := Children(n);
    for k := 0 to |cs|
      invariant FlatMap(AuditedBelow(n, at, 0), f) == out + FlatMap(AuditedBelow(n, at, k), f)
    {
      AtChild(root, n, at, k);
      var sub := Inspect(root, cs[k], at + [k]);
      InspectStep(n, at, k, f, out);
      out := out + sub;
    }
  }

  lemma InspectStep<B>(n: Node, at: Path, k: nat, f: Path -> seq<B>, out: seq<B>)
    requires k < |Children(n)|
    ensures out + FlatMap(AuditedBelow(n, at, k), f) ==
      out + FlatMap(Audited(Children(n)[k], at + [k]), f) + FlatMap(AuditedBelow(n, at, k + 1), f)
  {
    FlatMapConcat(Audited(Children(n)[k], at + [k]), AuditedBelow(n, at, k + 1), f);
  }

  lemma AtChild(root: Node, n: Node, at: Path, k: nat)
    requires At(root, at) == Some(n) && k < |Children(n)|
    ensures At(root, at + [k]) == Some(Children(n)[k])
  {
    AtAppend(root, at, [k]);
    assert [k][1..] == [];
  }

  /** main for one file: the walk from the root. */
  method AuditFile(root: Node) returns (out: seq<Report>)
    ensures out == Reports(root)
    ensures IndicesOf(out) == Lines(root)
  {
    out := Inspect(root, root, []);
    LinesOfWalk(root, root, []);
  }

  /** A line is printed for exactly the maximal foldable expressions with a match that the audit flags. */
  lemma ReportsExactly(n: Node, r: Report)
    ensures r in Reports(n) <==>
      MaximalFoldable(n, r.path) && r.indices == Captures(TextAt(n, r.path)) && Flagged(r.indices)
  {
    FlatMapMembers(Audited(n), ReportAt(n), r);
    if r.path in Audited(n) && Flagged(r.indices) && r.indices == Captures(TextAt(n, r.path)) {
      assert r in ReportAt(n)(r.path);
    }
    WalkAuditsMaximalExactly(n, r.path);
  }

  // ----- The report, read off the tree -----

  /** The indices that are printed for a tree: those of its topmost foldable expressions, where the audit flags them. */
  ghost function Lines(n: Node): seq<seq<Numeral>>
    decreases n
  {
    if Literal(n).Some? then
      var ds := Captures(Literal(n).value);
      if Flagged(ds) then [ds] else []
    else
      match n
      case BasicLit(_, _) => []
      case BinaryExpr(_, x, y) => Lines(x) + Lines(y)
      case OtherExpr(cs) => LinesOf(cs)
      case NonExpr(cs) => LinesOf(cs)
  }

  ghost function LinesOf(ns: seq<Node>): seq<seq<Numeral>>
    decreases ns
  {
    if ns == [] then [] else Lines(ns[0]) + LinesOf(ns[1..])
  }

  ghost function IndicesOf(rs: seq<Report>): seq<seq<Numeral>> {
    seq(|rs|, i requires 0 <= i < |rs| => rs[i].indices)
  }

  lemma IndicesConcat(a: seq<Report>, b: seq<Report>)
    ensures IndicesOf(a + b) == IndicesOf(a) + IndicesOf(b)
  {
  }

  /** The walk with its paths and its pruning prints exactly these lines, in this order. */
  lemma {:induction false} LinesOfWalk(root: Node, n: Node, at: Path)
    requires At(root, at) == Some(n)
    ensures IndicesOf(FlatMap(Audited(n, at), ReportAt(root))) == Lines(n)
    decreases n, |Children(n)| + 1
  {
    if IsAudited(n) {
      AuditedHere(root, n, at);
    } else if Literal(n).Some? {
      NothingBelowUnmatched(n, at);
    } else {
      LinesBelow(root, n, at, 0);
      LinesOfChildren(n);
      assert Children(n)[0..] == Children(n);
    }
  }

  lemma {:induction false} LinesBelow(root: Node, n: Node, at: Path, k: nat)
    requires At(root, at) == Some(n) && k <= |Children(n)|
    ensures IndicesOf(FlatMap(AuditedBelow(n, at, k), ReportAt(root))) == LinesOf(Children(n)[k..])
    decreases n, |Children(n)| - k
  {
    hide Literal, Lines, ReportAt, Audited, At;
    if k < |Children(n)| {
      var f, c := ReportAt(root), Children(n)[k];
      AtChild(root, n, at, k);
      LinesOfWalk(root, c, at + [k]);
      LinesBelow(root, n, at, k + 1);
      FlatMapConcat(Audited(c, at + [k]), AuditedBelow(n, at, k + 1), f);
      IndicesConcat(FlatMap(Audited(c, at + [k]), f), FlatMap(AuditedBelow(n, at, k + 1), f));
      assert Children(n)[k..][1..] == Children(n)[k + 1..];
    }
  }

  lemma LinesOfChildren(n: Node)
    requires Literal(n).None?
    ensures Lines(n) == LinesOf(Children(n))
  {
    if n.BinaryExpr? { assert LinesOf([n.x, n.y][1..]) == Lines(n.y) + []; }
  }

  /** `e` is `n` or stands somewhere below it. */
  ghost predicate Occurs(e: Node, n: Node)
    decreases n
  {
    e == n ||
    match n
    case BasicLit(_, _) => false
    case BinaryExpr(_, x, y) => Occurs(e, x) || Occurs(e, y)
    case OtherExpr(cs) => exists i :: 0 <= i < |cs| && Occurs(e, cs[i])
    case NonExpr(cs) => exists i :: 0 <= i < |cs| && Occurs(e, cs[i])
  }

  lemma {:induction false} OccursBelow(e: Node, n: Node)
    ensures Occurs(e, n) <==> e == n || exists i :: 0 <= i < |Children(n)| && Occurs(e, Children(n)[i])
  {
    var cs := Children(n);
    match n {
      case BasicLit(_, _) =>
      case BinaryExpr(_, x, y) =>
        assert cs[0] == x && cs[1] == y;
        if Occurs(e, x) { assert Occurs(e, cs[0]); }
        if Occurs(e, y) { assert Occurs(e, cs[1]); }
        if i :| 0 <= i < |cs| && Occurs(e, cs[i]) { assert cs[i] == x || cs[i] == y; }
      case OtherExpr(_) =>
      case NonExpr(_) =>
    }
  }

  lemma {:induction false} PathTo(e: Node, n: Node) returns (p: Path)
    requires Occurs(e, n)
    ensures At(n, p) == Some(e)
    decreases n
  {
    OccursBelow(e, n);
    if e == n {
      p := [];
    } else {
      var i :| 0 <= i < |Children(n)| && Occurs(e, Children(n)[i]);
      var rest := PathTo(e, Children(n)[i]);
      p := [i] + rest;
      assert p[1..] == rest;
    }
  }

  lemma {:induction false} OccursAt(n: Node, p: Path)
    requires At(n, p).Some?
    ensures Occurs(At(n, p).value, n)
    decreases p
  {
    if p != [] {
      OccursAt(Children(n)[p[0]], p[1..]);
      OccursBelow(At(n, p).value, n);
    }
  }

  /** Everything audited occurs in the tree, folds, and holds a placeholder. */
  lemma AuditedOccurs(n: Node, p: Path)
    requires p in Audited(n)
    ensures At(n, p).Some? && Occurs(At(n, p).value, n)
    ensures var e := At(n, p).value; Literal(e).Some? && HasMatch(Literal(e).value)
  {
    WalkAuditsMaximalExactly(n, p);
    OccursAt(n, p);
  }

  /** Every expression that occurs, folds and holds a placeholder stands inside an audited one. */
  lemma OccurrenceIsAudited(n: Node, e: Node) returns (p: Path)
    requires Occurs(e, n) && Literal(e).Some? && HasMatch(Literal(e).value)
    ensures p in Audited(n) && At(n, p).Some? && Occurs(e, At(n, p).value)
  {
    var leaf := PathTo(e, n);
    p := LeafAuditedOnce(n, leaf);
    AuditedOccurs(n, p);
    assert leaf == p + leaf[|p|..];
    AtAppend(n, p, leaf[|p|..]);
    OccursAt(At(n, p).value, leaf[|p|..]);
  }

  /** An expression folds exactly when nothing occurs in it but additions and string literals that can be unquoted. */
  lemma {:induction false} FoldsExactly(n: Node)
    ensures Literal(n).Some? <==> forall e :: Occurs(e, n) ==> IsAddition(e) || IsStringLiteral(e)
  {
    hide Unquote;
    if n.BinaryExpr? {
      FoldsExactly(n.x);
      FoldsExactly(n.y);
      forall e ensures Occurs(e, n) <==> e == n || Occurs(e, n.x) || Occurs(e, n.y) {}
    }
    assert Occurs(n, n);
  }

  ghost predicate IsAddition(e: Node) {
    e.BinaryExpr? && e.op == Add
  }

  ghost predicate IsStringLiteral(e: Node) {
    e.BasicLit? && e.kind == StringKind && Unquote(e.text).Some?
  }

  /** The texts of the literals in an expression, from left to right. */
  ghost function LiteralTexts(n: Node): seq<string> {
    match n
    case BasicLit(_, text) => [text]
    case BinaryExpr(_, x, y) => LiteralTexts(x) + LiteralTexts(y)
    case _ => []
  }

  ghost function Unquoted(): string -> string {
    (text: string) => if Unquote(text).Some? then Unquote(text).value else []
  }

  /** The folded text is what the literals stand for, put together from left to right. */
  lemma {:induction false} FoldsToLiterals(n: Node)
    requires Literal(n).Some?
    ensures Literal(n).value == FlatMap(LiteralTexts(n), Unquoted())
  {
    hide Unquote;
    if n.BinaryExpr? {
      FoldsToLiterals(n.x);
      FoldsToLiterals(n.y);
      FlatMapConcat(LiteralTexts(n.x), LiteralTexts(n.y), Unquoted());
    } else {
      assert [n.text][1..] == [];
      assert Unquoted()(n.text) + [] == Unquoted()(n.text);
    }
  }

  // ----- Seams between literals -----

  /** A placeholder of `a + b` begins in `a` and ends in `b`. */
  ghost predicate Straddles(a: string, b: string) {
    exists i :: 0 <= i < |a| && StraddlesAt(a + b, i, |a|)
  }

  /** The placeholder that begins at `i` runs over the cut at `c`. */
  ghost predicate StraddlesAt(t: string, i: nat, c: nat) {
    i < c && i <= |t| && StartsPlaceholder(t[i..]) && i + PlaceholderLength(t[i..]) > c
  }

  lemma {:induction false} DigitRunPrefix(a: string, b: string)
    ensures DigitRun(a) == if DigitRun(a + b) <= |a| then DigitRun(a + b) else |a|
  {
    if a != [] {
      assert (a + b)[1..] == a[1..] + b;
      DigitRunPrefix(a[1..], b);
    }
  }

  lemma PlaceholderPrefix(a: string, b: string)
    requires StartsPlaceholder(a)
    ensures StartsPlaceholder(a + b)
    ensures var n := PlaceholderLength(a + b); PlaceholderLength(a) == if n <= |a| then n else |a|
  {
    assert (a + b)[1..] == a[1..] + b;
    DigitRunPrefix(a[1..], b);
  }

  lemma {:induction false} DigitsKept(s: string, k: nat)
    requires k <= |s| && AllDigits(s[..k])
    ensures Rewrite(s) == s[..k] + Rewrite(s[k..])
  {
    if k > 0 {
      assert IsDigit(s[..k][0]);
      assert s[1..][..k - 1] == s[..k][1..];
      DigitsKept(s[1..], k - 1);
      assert s[1..][k - 1..] == s[k..];
      assert s[..k] == [s[0]] + s[1..][..k - 1];
    }
  }

  lemma StraddlesShift(a: string, b: string, n: nat)
    requires n <= |a|
    requires forall i :: 0 <= i < n ==> !StraddlesAt(a + b, i, |a|)
    ensures Straddles(a, b) <==> Straddles(a[n..], b)
  {
    var t := a + b;
    assert t[n..] == a[n..] + b;
    if i :| 0 <= i < |a| && StraddlesAt(t, i, |a|) {
      assert t[n..][i - n..] == t[i..];
      assert StraddlesAt(a[n..] + b, i - n, |a[n..]|);
    }
    if i :| 0 <= i < |a[n..]| && StraddlesAt(a[n..] + b, i, |a[n..]|) {
      assert t[n..][i..] == t[n + i..];
      assert StraddlesAt(t, n + i, |a|);
    }
  }

  lemma PlaceholderDigits(t: string, i: nat)
    requires i <= |t|
    ensures StartsPlaceholder(t[i..]) ==> forall k :: i < k < i + PlaceholderLength(t[i..]) ==> IsDigit(t[k])
  {
    if StartsPlaceholder(t[i..]) {
      var n := PlaceholderLength(t[i..]);
      forall k | i < k < i + n ensures IsDigit(t[k]) {
        assert IsDigit(t[i..][..n][1..][k - i - 1]);
      }
    }
  }

  lemma NoStartInside(t: string, i: nat)
    requires StartsPlaceholder(t) && 0 < i < PlaceholderLength(t)
    ensures !StartsPlaceholder(t[i..])
  {
    var n := PlaceholderLength(t);
    assert IsDigit(t[..n][1..][i - 1]);
  }

  /** Cutting a placeholder apart leaves at least one of its digits in the text. */
  lemma RewriteCutPlaceholder(a: string, b: string)
    requires a != [] && StartsPlaceholder(a + b) && PlaceholderLength(a + b) > |a|
    ensures |Rewrite(a + b)| < |Rewrite(a)| + |Rewrite(b)|
  {
    var t := a + b;
    var n := PlaceholderLength(t);
    var k := n - |a|;
    assert t[n..] == b[k..];
    PlaceholderDigits(t, 0);
    assert t[0..] == t;
    forall i | 0 <= i < k ensures IsDigit(b[..k][i]) { assert b[i] == t[|a| + i]; }
    DigitsKept(b, k);
    if |a| >= 2 {
      PlaceholderPrefix(a, b);
      assert a[|a|..] == [];
    } else {
      assert a[1..] == [];
    }
    assert |Rewrite(a)| == 1;
  }

  ghost predicate Additive(a: string, b: string) {
    if Straddles(a, b) then |Rewrite(a + b)| < |Rewrite(a)| + |Rewrite(b)| else Rewrite(a + b) == Rewrite(a) + Rewrite(b)
  }

  lemma NoneStraddlesBefore(a: string, b: string, i: nat)
    requires StartsPlaceholder(a + b) && i < PlaceholderLength(a + b) <= |a|
    ensures !StraddlesAt(a + b, i, |a|)
  {
    var t := a + b;
    assert t[0..] == t;
    if i > 0 { NoStartInside(t, i); }
  }

  lemma RewritePastPlaceholder(a: string, b: string)
    requires StartsPlaceholder(a + b) && PlaceholderLength(a + b) <= |a|
    ensures var n := PlaceholderLength(a + b);
      Rewrite(a) == "?" + Rewrite(a[n..]) && Rewrite(a + b) == "?" + Rewrite(a[n..] + b)
  {
    var n := PlaceholderLength(a + b);
    PlaceholderPrefix(a, b);
    assert (a + b)[n..] == a[n..] + b;
  }

  lemma AdditivePastPlaceholder(a: string, b: string)
    requires StartsPlaceholder(a + b) && PlaceholderLength(a + b) <= |a|
    requires Additive(a[PlaceholderLength(a + b)..], b)
    ensures Additive(a, b)
  {
    hide Rewrite, DigitRun, StartsPlaceholder, Straddles, StraddlesAt, IsPlaceholder;
    var n := PlaceholderLength(a + b);
    forall i | 0 <= i < n ensures !StraddlesAt(a + b, i, |a|) { NoneStraddlesBefore(a, b, i); }
    StraddlesShift(a, b, n);
    RewritePastPlaceholder(a, b);
    assert "?" + (Rewrite(a[n..]) + Rewrite(b)) == "?" + Rewrite(a[n..]) + Rewrite(b);
  }

  lemma NoneStraddlesAtFront(a: string, b: string)
    requires !StartsPlaceholder(a + b)
    ensures !StraddlesAt(a + b, 0, |a|)
  {
    assert (a + b)[0..] == a + b;
  }

  lemma RewritePastCharacter(a: string, b: string)
    requires a != [] && !StartsPlaceholder(a + b)
    ensures Rewrite(a) == [a[0]] + Rewrite(a[1..]) && Rewrite(a + b) == [a[0]] + Rewrite(a[1..] + b)
  {
    if StartsPlaceholder(a) { PlaceholderPrefix(a, b); }
    assert (a + b)[1..] == a[1..] + b;
  }

  lemma AdditivePastCharacter(a: string, b: string)
    requires a != [] && !StartsPlaceholder(a + b) && Additive(a[1..], b)
    ensures Additive(a, b)
  {
    hide Rewrite, DigitRun, StartsPlaceholder, Straddles, StraddlesAt, IsPlaceholder;
    NoneStraddlesAtFront(a, b);
    StraddlesShift(a, b, 1);
    RewritePastCharacter(a, b);
    assert [a[0]] + (Rewrite(a[1..]) + Rewrite(b)) == [a[0]] + Rewrite(a[1..]) + Rewrite(b);
  }

  /** Two texts can be rewritten apart exactly when no placeholder straddles the seam. */
  lemma {:induction false} RewriteConcat(a: string, b: string)
    ensures !Straddles(a, b) ==> Rewrite(a + b) == Rewrite(a) + Rewrite(b)
    ensures Straddles(a, b) ==> |Rewrite(a + b)| < |Rewrite(a)| + |Rewrite(b)|
    decreases |a|
  {
    var t := a + b;
    if a == [] {
      assert t == b;
    } else if !StartsPlaceholder(t) {
      RewriteConcat(a[1..], b);
      AdditivePastCharacter(a, b);
    } else if PlaceholderLength(t) <= |a| {
      RewriteConcat(a[PlaceholderLength(t)..], b);
      AdditivePastPlaceholder(a, b);
    } else {
      assert t[0..] == t && StraddlesAt(t, 0, |a|);
      RewriteCutPlaceholder(a, b);
    }
  }

  /** A character that is neither `$` nor a digit separates: whatever surrounds it is rewritten apart. */
  lemma RewriteBarrier(a: string, q: char, b: string)
    requires q != '$' && !IsDigit(q)
    ensures Rewrite(a + [q] + b) == Rewrite(a) + [q] + Rewrite(b)
  {
    var t := a + [q];
    forall i | 0 <= i < |a| ensures !StraddlesAt(t, i, |a|) { PlaceholderDigits(t, i); }
    RewriteConcat(a, [q]);
    assert Rewrite([q]) == [q] + Rewrite([q][1..]);
    forall i | 0 <= i < |t| ensures !StraddlesAt(t + b, i, |t|) {
      PlaceholderDigits(t + b, i);
      assert (t + b)[|a|] == q && (t + b)[i..][0] == (t + b)[i];
    }
    RewriteConcat(t, b);
  }

  /** In a source file, the body of a quoted literal is rewritten as if it stood alone. */
  lemma RewriteInsideQuotes(before: string, quote: char, body: string, after: string)
    requires quote in {'"', '`', '\''}
    ensures Rewrite(before + [quote] + body + [quote] + after) ==
      Rewrite(before) + [quote] + Rewrite(body) + [quote] + Rewrite(after)
  {
    RewriteBarrier(before, quote, body);
    RewriteBarrier(before + [quote] + body, quote, after);
  }

  /** A stretch of a source file: text outside of literals, and the literal behind it. */
  datatype Stretch = Stretch(outer: string, quote: char, body: string)

  /** A source file: stretches, and the text behind the last literal. */
  function FileText(stretches: seq<Stretch>, rest: string): string {
    if stretches == [] then rest
    else
      var s := stretches[0];
      s.outer + [s.quote] + s.body + [s.quote] + FileText(stretches[1..], rest)
  }

  function RewriteStretches(stretches: seq<Stretch>): seq<Stretch> {
    if stretches == [] then []
    else
      var s := stretches[0];
      [Stretch(Rewrite(s.outer), s.quote, Rewrite(s.body))] + RewriteStretches(stretches[1..])
  }

  /** Rewriting a whole source file rewrites every literal, and everything between them, on its own. */
  lemma {:induction false} FileIsRewrittenByLiterals(stretches: seq<Stretch>, rest: string)
    requires forall s :: s in stretches ==> s.quote in {'"', '`', '\''}
    ensures Rewrite(FileText(stretches, rest)) == FileText(RewriteStretches(stretches), Rewrite(rest))
  {
    hide Rewrite;
    if stretches != [] {
      var s := stretches[0];
      assert s in stretches && forall x :: x in stretches[1..] ==> x in stretches;
      FileIsRewrittenByLiterals(stretches[1..], rest);
      RewriteInsideQuotes(s.outer, s.quote, s.body, FileText(stretches[1..], rest));
      assert RewriteStretches(stretches)[1..] == RewriteStretches(stretches[1..]);
    }
  }

  // ----- Seams inside an expression -----

  /** The text of `n` is cut at `c` between two of its literals. */
  ghost predicate IsCut(n: Node, c: nat)
    requires Literal(n).Some?
  {
    n.BinaryExpr? &&
    var m := |Literal(n.x).value|;
    c == m || IsCut(n.x, c) || (c > m && IsCut(n.y, c - m))
  }

  /** No placeholder of the folded text runs over a boundary between literals. */
  ghost predicate SeamFree(n: Node)
    requires Literal(n).Some?
  {
    var t := Literal(n).value;
    forall i, c: nat :: 0 <= i <= |t| && IsCut(n, c) ==> !StraddlesAt(t, i, c)
  }

  /** The tree as the rewritten source has it: the text of every literal is rewritten on its own. */
  function RewriteLiterals(n: Node): Node {
    match n
    case BasicLit(kind, text) => BasicLit(kind, Rewrite(text))
    case BinaryExpr(op, x, y) => BinaryExpr(op, RewriteLiterals(x), RewriteLiterals(y))
    case OtherExpr(cs) => OtherExpr(seq(|cs|, i requires 0 <= i < |cs| => RewriteLiterals(cs[i])))
    case NonExpr(cs) => NonExpr(seq(|cs|, i requires 0 <= i < |cs| => RewriteLiterals(cs[i])))
  }

  lemma {:induction false} RewriteChars(s: string, c: char)
    requires c in Rewrite(s) && c != '?'
    ensures c in s
  {
    if StartsPlaceholder(s) {
      var n := PlaceholderLength(s);
      RewriteChars(s[n..], c);
      assert c in s[n..] ==> c in s;
    } else if c != s[0] {
      RewriteChars(s[1..], c);
    }
  }

  /** No placeholder in the value of a literal is written with an escape, or broken by a carriage return. */
  ghost predicate WrittenPlain(text: string)
    requires Unquote(text).Some?
  {
    var body := text[1..|text| - 1];
    if text[0] == '"' then Intact(UnitsOf(body).value) else Unbroken(body)
  }

  ghost predicate LiteralsWrittenPlain(n: Node)
    requires Literal(n).Some?
  {
    match n
    case BasicLit(_, text) => WrittenPlain(text)
    case BinaryExpr(_, x, y) => LiteralsWrittenPlain(x) && LiteralsWrittenPlain(y)
    case _ => true
  }

  lemma RewriteQuoted(q: char, body: string)
    requires q in {'"', '`'}
    ensures Rewrite([q] + body + [q]) == [q] + Rewrite(body) + [q]
  {
    RewriteInsideQuotes([], q, body, []);
    assert [] + [q] + body + [q] + [] == [q] + body + [q];
    assert Rewrite([]) == [] && [] + [q] + Rewrite(body) + [q] + [] == [q] + Rewrite(body) + [q];
  }

  lemma QuotedParts(q: char, body: string)
    ensures var t := [q] + body + [q]; |t| >= 2 && t[0] == q == t[|t| - 1] && t[1..|t| - 1] == body
  {
  }

  /**
    The rewrite of a literal's text gives a literal again. Its value is the rewritten value exactly
    when every placeholder is written plainly; otherwise too much is left.
   */
  lemma LiteralRewritesExactly(text: string)
    requires Unquote(text).Some?
    ensures Unquote(Rewrite(text)).Some?
    ensures var s, r := Unquote(text).value, Unquote(Rewrite(text)).value;
      && |r| >= |Rewrite(s)|
      && (r == Rewrite(s) <==> WrittenPlain(text))
      && (|r| == |Rewrite(s)| ==> WrittenPlain(text))
  {
    hide Intact, Unbroken, RewriteUnits, UnitsOf, Rewrite, Drop;
    var q, body := text[0], text[1..|text| - 1];
    assert text == [q] + body + [q];
    RewriteQuoted(q, body);
    QuotedParts(q, Rewrite(body));
    if q == '`' {
      if '`' in Rewrite(body) { RewriteChars(body, '`'); }
      RewriteRawExactly(body);
    } else {
      var us := UnitsOf(body).value;
      TextOfUnits(body);
      RewriteOfText(us);
      RewriteUnitsAreUnits(us);
      UnitsOfText(RewriteUnits(us));
      RewriteUnitsExactly(us);
    }
  }

  lemma StraddlesAtPrefix(a: string, b: string, i: nat, c: nat)
    requires c < |a|
    ensures StraddlesAt(a, i, c) <==> StraddlesAt(a + b, i, c)
  {
    if i < c {
      assert (a + b)[i..] == a[i..] + b;
      assert |a[i..]| >= 2;
      if StartsPlaceholder(a[i..]) { PlaceholderPrefix(a[i..], b); }
    }
  }

  lemma StraddlesAtSuffix(a: string, b: string, i: nat, c: nat)
    requires i <= |b|
    ensures StraddlesAt(b, i, c) <==> StraddlesAt(a + b, |a| + i, |a| + c)
  {
    assert (a + b)[|a| + i..] == b[i..];
  }

  lemma {:induction false} CutsInside(n: Node, c: nat)
    requires Literal(n).Some? && IsCut(n, c)
    ensures c <= |Literal(n).value|
  {
    if c != |Literal(n.x).value| {
      if IsCut(n.x, c) { CutsInside(n.x, c); } else { CutsInside(n.y, c - |Literal(n.x).value|); }
    }
  }

  lemma SeamFreeParts(n: Node)
    requires Literal(n).Some? && n.BinaryExpr? && SeamFree(n)
    ensures SeamFree(n.x) && SeamFree(n.y) && !Straddles(Literal(n.x).value, Literal(n.y).value)
  {
    var a, b := Literal(n.x).value, Literal(n.y).value;
    assert IsCut(n, |a|);
    forall i, c: nat | 0 <= i <= |a| && IsCut(n.x, c) ensures !StraddlesAt(a, i, c) {
      CutsInside(n.x, c);
      assert IsCut(n, c);
      if c < |a| { StraddlesAtPrefix(a, b, i, c); }
    }
    forall i, c: nat | 0 <= i <= |b| && IsCut(n.y, c) ensures !StraddlesAt(b, i, c) {
      StraddlesAtSuffix(a, b, i, c);
      assert IsCut(n, |a| + c);
    }
  }

  lemma SeamFreeWhole(n: Node)
    requires Literal(n).Some? && n.BinaryExpr?
    requires SeamFree(n.x) && SeamFree(n.y) && !Straddles(Literal(n.x).value, Literal(n.y).value)
    ensures SeamFree(n)
  {
    hide IsCut;
    forall i, c: nat | 0 <= i <= |Literal(n).value| && IsCut(n, c) ensures !StraddlesAt(Literal(n).value, i, c) {
      NoneAtCut(n, i, c);
    }
  }

  lemma {:induction false} NoneAtCut(n: Node, i: nat, c: nat)
    requires Literal(n).Some? && n.BinaryExpr?
    requires SeamFree(n.x) && SeamFree(n.y) && !Straddles(Literal(n.x).value, Literal(n.y).value)
    requires i <= |Literal(n).value| && IsCut(n, c)
    ensures !StraddlesAt(Literal(n).value, i, c)
  {
    hide IsCut, StartsPlaceholder, PlaceholderLength, Unquote;
    var a, b := Literal(n.x).value, Literal(n.y).value;
    if c < |a| {
      CutLeft(n, c);
      StraddlesAtPrefix(a, b, i, c);
    } else if i < |a| {
      assert !StraddlesAt(a + b, i, |a|);
    } else if c > |a| {
      CutRight(n, c);
      StraddlesAtSuffix(a, b, i - |a|, c - |a|);
    }
  }

  lemma {:induction false} SeamFreeSum(n: Node)
    requires Literal(n).Some? && n.BinaryExpr?
    ensures SeamFree(n) <==>
      SeamFree(n.x) && SeamFree(n.y) && !Straddles(Literal(n.x).value, Literal(n.y).value)
  {
    if SeamFree(n) {
      SeamFreeParts(n);
    } else if SeamFree(n.x) && SeamFree(n.y) && !Straddles(Literal(n.x).value, Literal(n.y).value) {
      SeamFreeWhole(n);
    }
  }

  lemma CutLeft(n: Node, c: nat)
    requires Literal(n).Some? && n.BinaryExpr? && IsCut(n, c) && c < |Literal(n.x).value|
    ensures IsCut(n.x, c)
  {
  }

  lemma CutRight(n: Node, c: nat)
    requires Literal(n).Some? && n.BinaryExpr? && IsCut(n, c) && c > |Literal(n.x).value|
    ensures IsCut(n.y, c - |Literal(n.x).value|)
  {
    if IsCut(n.x, c) { CutsInside(n.x, c); }
  }

  /**
    Folding and rewriting commute exactly when no placeholder straddles a boundary between literals
    and all are written plainly; otherwise rewriting the literals leaves characters behind.
   */
  lemma {:induction false} FoldCommutesExactly(n: Node)
    requires Literal(n).Some?
    ensures Literal(RewriteLiterals(n)).Some?
    ensures Literal(RewriteLiterals(n)).value == Rewrite(Literal(n).value) <==> SeamFree(n) && LiteralsWrittenPlain(n)
    ensures |Literal(RewriteLiterals(n)).value| >= |Rewrite(Literal(n).value)|
    ensures |Literal(RewriteLiterals(n)).value| == |Rewrite(Literal(n).value)| ==> SeamFree(n) && LiteralsWrittenPlain(n)
  {
    hide SeamFree, Rewrite, Unquote, WrittenPlain, Straddles;
    if n.BasicLit? {
      LiteralRewritesExactly(n.text);
      NoSeams(n);
    } else if n.BinaryExpr? {
      FoldCommutesExactly(n.x);
      FoldCommutesExactly(n.y);
      SeamFreeSum(n);
      RewriteConcat(Literal(n.x).value, Literal(n.y).value);
    }
  }

  lemma NoSeams(n: Node)
    requires Literal(n).Some? && n.BasicLit?
    ensures SeamFree(n)
  {
  }

  lemma {:induction false} PositionalLength<T>(s: string, args: seq<T>)
    ensures BindPositional(s, args).Some? ==> |BindPositional(s, args).value| == |s|
  {
    if s != [] {
      if s[0] != '?' { PositionalLength(s[1..], args); }
      else if args != [] { PositionalLength(s[1..], args[1..]); }
    }
  }

  lemma {:induction false} FillLength<T>(s: string, vals: seq<T>)
    requires |vals| == |Captures(s)|
    ensures |Fill(s, vals)| == |Rewrite(s)|
  {
    if s != [] {
      if StartsPlaceholder(s) { FillLength(s[PlaceholderLength(s)..], vals[1..]); }
      else { FillLength(s[1..], vals); }
    }
  }

  /** Rewriting the literals of an expression keeps its meaning for all argument lists. */
  ghost predicate FaithfulExpression(n: Node)
    requires Literal(n).Some?
  {
    Literal(RewriteLiterals(n)).Some? &&
    forall args: seq<int> ::
      BindPositional(Literal(RewriteLiterals(n)).value, args) == BindNumbered(Literal(n).value, args)
  }

  /**
    The exact condition for one expression: no placeholder over a boundary between literals or with an
    escape or a carriage return in it, no `?` of its own, no flag, and a last index that is the number of placeholders.
   */
  lemma {:induction false} ExpressionIsFaithfulExactly(n: Node)
    requires Literal(n).Some? && |Literal(n).value| <= MAX_INT
    ensures var s := Literal(n).value;
      var ds := Captures(s);
      FaithfulExpression(n) <==>
        SeamFree(n) && LiteralsWrittenPlain(n) && '?' !in s && !Flagged(ds) && (ds != [] ==> Value(ds[|ds| - 1]) == |ds|)
  {
    hide Rewrite, SeamFree, LiteralsWrittenPlain, Flagged, RewriteLiterals, Captures, BindPositional;
    FoldCommutesExactly(n);
    RewriteIsFaithfulExactly(Literal(n).value);
    if FaithfulExpression(n) && !(SeamFree(n) && LiteralsWrittenPlain(n)) {
      var s, r := Literal(n).value, Literal(RewriteLiterals(n)).value;
      var args := seq(QuestionMarks(r), k => k);
      PositionalCount(r, args);
      PositionalLength(r, args);
      assert BindPositional(r, args) == BindNumbered(s, args);
      MaxIndexBounds(Captures(s));
      FillLength(s, SelectArgs(Captures(s), args));
    }
  }

  lemma {:induction false} PlainBody(body: string)
    requires '"' !in body && '\n' !in body && '\\' !in body
    ensures UnitsOf(body).Some? && CharsOf(UnitsOf(body).value) == body
    decreases |body|
  {
    if body != [] {
      assert body[0] in body && forall c :: c in body[1..] ==> c in body;
      PlainBody(body[1..]);
      CharsBehind(Plain(body[0]), UnitsOf(body[1..]).value, body[1..]);
    }
  }

  lemma {:induction false} PlainUnits(body: string)
    requires '\\' !in body && UnitsOf(body).Some?
    ensures forall i :: 0 <= i < |UnitsOf(body).value| ==> UnitsOf(body).value[i].Plain?
    decreases |body|
  {
    if body != [] {
      assert body[0] in body && forall c :: c in body[1..] ==> c in body;
      PlainUnits(body[1..]);
    }
  }

  /** A double-quoted literal without escapes, and what the rewrite makes of it. */
  lemma QuotedLiteral(body: string)
    requires '"' !in body && '\n' !in body && '\\' !in body
    ensures var text := ['"'] + body + ['"'];
      Unquote(text) == Some(body) && WrittenPlain(text) && Unquote(Rewrite(text)) == Some(Rewrite(body))
  {
    hide UnitsOf, Rewrite;
    var text := ['"'] + body + ['"'];
    QuotedParts('"', body);
    PlainBody(body);
    PlainUnits(body);
    LiteralRewritesExactly(text);
  }

  ghost function SumOf(a: string, b: string): Node {
    BinaryExpr(Add, BasicLit(StringKind, ['"'] + a + ['"']), BasicLit(StringKind, ['"'] + b + ['"']))
  }

  lemma {:induction false} SumOfLiterals(a: string, b: string)
    requires '"' !in a + b && '\n' !in a + b && '\\' !in a + b
    ensures Literal(SumOf(a, b)) == Some(a + b)
    ensures Literal(RewriteLiterals(SumOf(a, b))) == Some(Rewrite(a) + Rewrite(b))
  {
    hide Rewrite, Unquote, WrittenPlain;
    assert forall c :: c in a || c in b ==> c in a + b;
    QuotedLiteral(a);
    QuotedLiteral(b);
  }

  lemma SmallRewrites()
    ensures Rewrite("$") == "$" && Rewrite("0") == "0" && Rewrite("1") == "1"
    ensures Rewrite("$1") == "?" && Rewrite("$10") == "?" && Captures("$1") == ["1"]
  {
    assert "$"[1..] == [] && "0"[1..] == [] && "1"[1..] == [];
    assert "$1"[1..] == "1" && DigitRun("1") == 1 && "$1"[2..] == [] && "$1"[..2][1..] == "1";
    assert "$10"[1..] == "10" && "10"[1..] == "0" && DigitRun("0") == 1 && DigitRun("10") == 2 && "$10"[3..] == [];
  }

  /** A number that is cut in two: the digits behind the cut stay in the text. */
  lemma CutNumberIsLeftOver()
    ensures Literal(SumOf("$1", "0")) == Some("$10") && Rewrite("$10") == "?"
    ensures Literal(RewriteLiterals(SumOf("$1", "0"))) == Some("?0")
    ensures !SeamFree(SumOf("$1", "0"))
  {
    hide Rewrite, Unquote, SeamFree;
    SumOfLiterals("$1", "0");
    SmallRewrites();
    assert "$1" + "0" == "$10" && "?" + "0" == "?0";
    FoldCommutesExactly(SumOf("$1", "0"));
    assert |Rewrite("$10")| == 1 && |"?0"| == 2;
    SumIsWrittenPlain("$1", "0");
  }

  /** A placeholder that is cut behind its `$`: the audit has nothing to say, and the rewrite misses it. */
  lemma CutPlaceholderIsMissed()
    ensures var n := SumOf("$", "1");
      && Literal(n) == Some("$1") && !Flagged(Captures("$1")) && Value("1") == |Captures("$1")|
      && !FaithfulExpression(n)
  {
    hide Rewrite, RewriteLiterals, Captures, Literal, BindPositional, BindNumbered;
    SumOfLiterals("$", "1");
    SmallRewrites();
    BindingsOfOne();
    assert "$" + "1" == "$1";
    var r := Literal(RewriteLiterals(SumOf("$", "1"))).value;
    assert BindPositional(r, [7]) != BindNumbered("$1", [7]);
  }

  lemma BindingsOfOne()
    ensures BindPositional("$1", [7]).None? && BindNumbered("$1", [7]).Some?
    ensures !Flagged(Captures("$1")) && Value("1") == 1
  {
    SmallRewrites();
    assert "$1"[1..] == "1" && "1"[1..] == [] && "1"[..0] == [] && Captures("$1")[..0] == [];
    assert MaxIndex(["1"]) == 1;
  }

  /** A placeholder whose `$` is written as an escape: the value holds it, and the rewrite misses it. */
  lemma EscapedPlaceholderIsMissed(text: string)
    requires text == "\"\\x241\""
    ensures Unquote(text) == Some("$1") && Rewrite(text) == text && !WrittenPlain(text)
  {
    hide Unquote, Rewrite, WrittenPlain;
    EscapedText(text);
    DollarFreeRewrite(text, []);
    SmallRewrites();
    assert text + [] == text;
    LiteralRewritesExactly(text);
  }

  lemma EscapedText(text: string)
    requires text == "\"\\x241\""
    ensures Unquote(text) == Some("$1") && '$' !in text && Rewrite([]) == []
  {
    hide EscapeAt, Intact;
    var us := [Escape("\\x24", '$'), Plain('1')];
    EscapeOfDollar();
    assert us[1..] == [Plain('1')] && us[1..][1..] == [];
    assert TextOf(us[1..]) == "1" && TextOf(us) == "\\x24" + "1" == "\\x241";
    UnitsOfText(us);
    assert text == ['"'] + "\\x241" + ['"'];
    QuotedParts('"', "\\x241");
    assert CharsOf(us) == "$1";
  }

  lemma EscapeOfDollar()
    ensures EscapeAt("\\x24") == Some((4, '$'))
  {
    var s := "\\x24";
    assert s[2..4] == "24" && "24"[..1] == "2" && "2"[..0] == [];
    assert CodeOf("2", 16) == 2 && CodeOf("24", 16) == 36;
    assert 36 as char == '$';
  }

  lemma SumIsWrittenPlain(a: string, b: string)
    requires '"' !in a + b && '\n' !in a + b && '\\' !in a + b
    ensures Literal(SumOf(a, b)).Some? && LiteralsWrittenPlain(SumOf(a, b))
  {
    SumOfLiterals(a, b);
    assert forall c :: c in a || c in b ==> c in a + b;
    QuotedLiteral(a);
    QuotedLiteral(b);
  }

  lemma {:induction false} RewriteLiteralsAt(n: Node, p: Path)
    requires At(n, p).Some?
    ensures At(RewriteLiterals(n), p) == Some(RewriteLiterals(At(n, p).value))
    decreases p
  {
    if p != [] { RewriteLiteralsAt(Children(n)[p[0]], p[1..]); }
  }

  /**
    The tool as a whole: an expression that the audit leaves out of its report, whose literals meet
    at no placeholder and whose last index is its number of placeholders, builds after the rewrite
    a text that binds every argument list by position as the original binds it by number.
   */
  lemma UnreportedExpressionKeepsItsMeaning<T>(n: Node, p: Path, args: seq<T>)
    requires MaximalFoldable(n, p)
    requires forall r :: r in Reports(n) ==> r.path != p
    requires SeamFree(At(n, p).value) && LiteralsWrittenPlain(At(n, p).value)
    requires var s := TextAt(n, p);
      && |s| <= MAX_INT
      && '?' !in s
      && (HasMatch(s) ==> Value(Captures(s)[|Captures(s)| - 1]) == |Captures(s)|)
    ensures Foldable(RewriteLiterals(n), p)
    ensures BindPositional(TextAt(RewriteLiterals(n), p), args) == BindNumbered(TextAt(n, p), args)
  {
    var s := TextAt(n, p);
    ReportsExactly(n, Report(p, Captures(s)));
    RewriteIsFaithfulExactly(s);
    FaithfulExactly(s);
    RewriteLiteralsAt(n, p);
    FoldCommutesExactly(At(n, p).value);
    InOrderIsFaithful(s, args);
  }
}
