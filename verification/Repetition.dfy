/** A repetition operator and what searching with it finds: parse_dup_op, the end of
    parse, and the engine, one after the other. */
module Repetition {
  import opened Language
  import opened BinTrees
  import opened DupOp
  import opened Regexp
  import B = NfaBuild

  /** The end of `parse`: END_OF_RE behind the tree, or alone. */
  method AddEnd(tree: BinTree?, ghost s: Shape)
    returns (root: BinTree, ghost whole: Shape, ghost end: BinTree, ghost added: set<BinTree>)
    requires Root(s) == tree && Holds(s, null) && WellFormed(Skeleton(s))
    modifies if tree == null then {} else {tree}
    ensures whole.Node? && whole.self == root && Holds(whole, null) && root.next == null
    ensures B.Pattern(whole, s, end) && Nodes(whole) <= Nodes(s) + added && fresh(added)
  {
    PartsAllocated(s);
    var eor := new BinTree(EndOfRe, null, null);
    end := eor;
    ghost var e := Shape.Node(end, Shape.Nil, Shape.Nil);
    added := {end};
    if tree == null {
      return eor, e, end, added;
    }
    root, whole := CreateTree(Concat, tree, eor, s, e);
    added := added + {root};
  }

  /** The match is leftmost-longest for `lo` to `hi` words of `t` in a row. */
  ghost predicate FindsRepetition(syn: Syntax, t: Tree, lo: int, hi: int, str: seq<Byte>, start: nat, lastStart: nat,
                                  stop: nat, longest: bool, first: int, len: int)
    requires start <= |str| && lastStart <= |str| && stop <= |str|
  {
    exists r ::
      && DenotesRange(syn, r, t, lo, hi)
      && LeftmostLongest(syn, r, str, start, lastStart, stop, longest, first, len)
  }

  /** What that says about the text: what is found is a repetition of `t`, as long (or as
      short) as any at its start, and none begins where the search passed. */
  lemma {:induction false} FoundIsRepetition(syn: Syntax, t: Tree, lo: int, hi: int, str: seq<Byte>, start: nat,
                                             lastStart: nat, stop: nat, longest: bool, first: int, len: int)
    requires start <= |str| && lastStart <= |str| && stop <= |str|
    requires FindsRepetition(syn, t, lo, hi, str, start, lastStart, stop, longest, first, len)
    ensures len != -1 ==>
              0 <= len && if start <= lastStart then start <= first <= lastStart else lastStart <= first <= start
    ensures len != -1 && first <= stop ==> first + len <= stop && Repeated(syn, t, lo, hi, str[first..first + len])
    ensures len != -1 && first > stop ==> len == 0 && Repeated(syn, t, lo, hi, [])
    ensures len != -1 ==>
              forall j :: first <= j <= stop && (if longest then j > first + len else j < first + len) ==>
                            !Repeated(syn, t, lo, hi, str[first..j])
    ensures start <= lastStart ==>
              var past := if len == -1 then lastStart + 1 else first;
              && (forall i, j :: start <= i < past && i <= j <= stop ==> !Repeated(syn, t, lo, hi, str[i..j]))
              && (start < past && stop + 1 < past ==> !Repeated(syn, t, lo, hi, []))
    ensures start > lastStart ==>
              var past := if len == -1 then lastStart else first + 1;
              && (forall i, j :: past <= i <= start && i <= j <= stop ==> !Repeated(syn, t, lo, hi, str[i..j]))
              && (past <= start && stop < start ==> !Repeated(syn, t, lo, hi, []))
  {
    var r :| && DenotesRange(syn, r, t, lo, hi)
             && LeftmostLongest(syn, r, str, start, lastStart, stop, longest, first, len);
    hide LeftmostLongest;
    MatchedText(syn, r, str, start, lastStart, stop, longest, first, len);
  }

  /** `elem` with a repetition operator behind it, as the whole pattern: the search finds
      the leftmost-longest repetition of what `elem` denotes, between the bounds that
      the operator's text spells. */
  method SearchRepetition(elem: BinTree?, ghost e: Shape, op: DupOperator, toks: seq<DupTok>, pos: nat,
                          invalidIntervalOrd: bool, syn: Syntax, noSub: bool, nsub: nat, tableSize: nat, str: seq<Byte>,
                          start: nat, lastStart: nat, stop: nat, nmatch: nat)
    returns (r: DupResult, first: int, len: int)
    requires Root(e) == elem && Holds(e, null) && WellFormed(Skeleton(e)) && Inhabited(Skeleton(e)) && tableSize > 0
    requires start <= |str| && lastStart <= |str| && stop <= |str|
    modifies Nodes(e)
    ensures op != OpenDupNum ==> r.Parsed?
    ensures op == OpenDupNum ==> forall lo: nat, hi: int :: Spells(toks, pos, lo, hi) ==>
              (r.Parsed? <==> (hi == -1 || lo <= hi) && (if hi == -1 then lo else hi) <= RE_DUP_MAX)
    ensures r.Parsed? ==> exists lo: nat, hi: int ::
              && OperatorBounds(op, toks, pos, lo, hi)
              && FindsRepetition(syn, Skeleton(e), lo, hi, str, start, lastStart, stop, nmatch != 0, first, len)
    ensures op == StarOp ==>
              FindsRepetition(syn, Skeleton(e), 0, -1, str, start, lastStart, stop, nmatch != 0, first, len)
    ensures op == PlusOp ==>
              FindsRepetition(syn, Skeleton(e), 1, -1, str, start, lastStart, stop, nmatch != 0, first, len)
    ensures op == QuestionOp ==>
              FindsRepetition(syn, Skeleton(e), 0, 1, str, start, lastStart, stop, nmatch != 0, first, len)
  {
    hide Holds, Spells, RunsOut, Broken, DenotesRange, LeftmostLongest, WellFormed, Inhabited,
      B.Pattern;
    if elem != null {
      RootInNodes(e);
    }
    var tree;
    ghost var s, added, more;
    r, tree, s, added := ParseDupOp(elem, e, op, toks, pos, invalidIntervalOrd, syn);
    if !r.Parsed? {
      return r, -1, -1;
    }
    ghost var lo: nat, hi: int :| OperatorBounds(op, toks, pos, lo, hi) && Denotes(syn, s, Skeleton(e), lo, hi);
    var root;
    ghost var whole, end;
    root, whole, end, more := AddEnd(tree, s);
    added := added + more;
    PatternInhabited(whole, s, end);
    first, len := CompileAndSearch(root, syn, noSub, nsub, tableSize, str, start, lastStart, stop, nmatch, whole, s,
                                   end);
    assert op != OpenDupNum ==> lo == (if op == PlusOp then 1 else 0) && hi == (if op == QuestionOp then 1 else -1);
    assert FindsRepetition(syn, Skeleton(e), lo, hi, str, start, lastStart, stop, nmatch != 0, first, len);
  }

  lemma {:induction false} PatternInhabited(whole: Shape, s: Shape, end: BinTree)
    requires B.Pattern(whole, s, end) && Inhabited(Skeleton(s))
    ensures Inhabited(Skeleton(whole))
  {
    var e := Shape.Node(end, Shape.Nil, Shape.Nil);
    assert Skeleton(e) == Tree.Node(EndOfRe, Tree.Nil, Tree.Nil) && Inhabited(Skeleton(e));
    assert whole == e || Skeleton(whole) == Tree.Node(Concat, Skeleton(s), Skeleton(e));
  }
}
