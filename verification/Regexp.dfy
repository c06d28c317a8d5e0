/** Compiling a parse tree and searching with it: the whole engine against the
    leftmost-longest rule of section 9.1 of POSIX.1-2017 XBD. */
module Regexp {
  import opened Language
  import opened BinTrees
  import opened Closure
  import opened Groups
  import opened Dfa
  import opened Simulation
  import opened Match
  import opened Search
  import B = NfaBuild
  import N = Nfa

  /** The `k` bytes from `i` are a word of the pattern and end at or before `stop`; from
      behind `stop` only the empty word can match. */
  ghost predicate MatchesAt(syn: Syntax, t: Tree, str: seq<Byte>, stop: nat, i: nat, k: nat)
    requires i <= |str| && stop <= |str|
  {
    if i <= stop then i + k <= stop && In(syn, t, str[i..i + k]) else k == 0 && In(syn, t, [])
  }

  ghost predicate MatchStarts(syn: Syntax, t: Tree, str: seq<Byte>, stop: nat, i: nat)
    requires i <= |str| && stop <= |str|
  {
    exists k: nat :: MatchesAt(syn, t, str, stop, i, k)
  }

  /** No start in `lo .. hi` begins a match. */
  ghost predicate NoMatchIn(syn: Syntax, t: Tree, str: seq<Byte>, stop: nat, lo: int, hi: int)
    requires stop <= |str|
  {
    forall i :: 0 <= i <= |str| && lo <= i < hi ==> !MatchStarts(syn, t, str, stop, i)
  }

  /** `first` is the first start in the direction of the search that begins a
      match and `len` is the length of the longest match there; when no registers
      are wanted it is the length of the shortest. No match is reported exactly
      when no start in range begins one. */
  ghost predicate LeftmostLongest(syn: Syntax, t: Tree, str: seq<Byte>, start: nat, lastStart: nat, stop: nat,
                                  longest: bool, first: int, len: int)
    requires start <= |str| && lastStart <= |str| && stop <= |str|
  {
    if len == -1 then
      NoMatchIn(syn, t, str, stop, if start <= lastStart then start else lastStart,
                (if start <= lastStart then lastStart else start) + 1)
    else
      && 0 <= first <= |str| && len >= 0 && MatchesAt(syn, t, str, stop, first, len)
      && (longest ==> forall k: nat :: k > len ==> !MatchesAt(syn, t, str, stop, first, k))
      && (!longest ==> forall k: nat :: k < len ==> !MatchesAt(syn, t, str, stop, first, k))
      && (if start <= lastStart
          then start <= first <= lastStart && NoMatchIn(syn, t, str, stop, start, first)
          else lastStart <= first <= start && NoMatchIn(syn, t, str, stop, first + 1, start + 1))
  }

  /** The simulation of `re` decides the language of `t`. */
  ghost predicate Decides(re: Program, last: nat, t: Tree)
    requires re.init < |re.ecl|
  {
    forall w :: Halts(re, last, w) <==> In(re.syn, t, w)
  }

  /** What the matcher sees from `i` on is the text up to `stop`. */
  lemma {:induction false} SeenFrom(re: Program, last: nat, t: Tree, str: seq<Byte>, stop: nat, i: nat, k: nat)
    requires re.init < |re.ecl| && i <= |str| && stop <= |str| && Decides(re, last, t)
    ensures var v := Visible(str, i, stop);
            MatchesAt(re.syn, t, str, stop, i, k) <==> k <= |v| && Halts(re, last, v[..k])
  {
    var v := Visible(str, i, stop);
    if i <= stop && i + k <= stop {
      assert v[..k] == str[i..i + k];
    } else if i > stop && k == 0 {
      assert v[..k] == [];
    }
  }

  /** In terms of the language, the search result is leftmost-longest. */
  lemma {:induction false} ResultIsLeftmostLongest(re: Program, last: nat, t: Tree, str: seq<Byte>, start: nat,
                                                   lastStart: nat, stop: nat, longest: bool, first: int, len: int)
    requires re.init < |re.ecl| && start <= |str| && lastStart <= |str| && stop <= |str|
    requires Decides(re, last, t) && SearchResult(re, last, str, start, lastStart, stop, longest, first, len)
    ensures LeftmostLongest(re.syn, t, str, start, lastStart, stop, longest, first, len)
  {
    forall i | 0 <= i <= |str| && !Hits(re, last, str, stop, i) ensures !MatchStarts(re.syn, t, str, stop, i) {
      forall k: nat ensures !MatchesAt(re.syn, t, str, stop, i, k) {
        SeenFrom(re, last, t, str, stop, i, k);
      }
    }
    if len >= 0 {
      var v := Visible(str, first, stop);
      assert Halts(re, last, v[..len]);
      forall k: nat
        ensures MatchesAt(re.syn, t, str, stop, first, k) <==> k <= |v| && Halts(re, last, v[..k])
      {
        SeenFrom(re, last, t, str, stop, first, k);
      }
    }
  }

  lemma {:induction false} NothingBegins(syn: Syntax, t: Tree, str: seq<Byte>, stop: nat, lo: int, hi: int)
    requires stop <= |str| && 0 <= lo && hi <= |str| + 1 && NoMatchIn(syn, t, str, stop, lo, hi)
    ensures forall i, j :: lo <= i < hi && i <= j <= stop ==> !In(syn, t, str[i..j])
    ensures lo < hi && stop + 1 < hi ==> !In(syn, t, [])
  {
    forall i, j | lo <= i < hi && i <= j <= stop ensures !In(syn, t, str[i..j]) {
      assert !MatchStarts(syn, t, str, stop, i);
      assert !MatchesAt(syn, t, str, stop, i, j - i);
    }
    if lo < hi && stop + 1 < hi {
      assert !MatchStarts(syn, t, str, stop, hi - 1);
      assert !MatchesAt(syn, t, str, stop, hi - 1, 0);
    }
  }

  /** The same, put in terms of the text alone: what is found is a word of the pattern, as
      long (or as short) as any at its start, and no word begins where the search passed. */
  lemma {:induction false} MatchedText(syn: Syntax, t: Tree, str: seq<Byte>, start: nat, lastStart: nat, stop: nat,
                                       longest: bool, first: int, len: int)
    requires start <= |str| && lastStart <= |str| && stop <= |str|
    requires LeftmostLongest(syn, t, str, start, lastStart, stop, longest, first, len)
    ensures len != -1 ==>
              0 <= len && if start <= lastStart then start <= first <= lastStart else lastStart <= first <= start
    ensures len != -1 && first <= stop ==> first + len <= stop && In(syn, t, str[first..first + len])
    ensures len != -1 && first > stop ==> len == 0 && In(syn, t, [])
    ensures len != -1 ==>
              forall j :: first <= j <= stop && (if longest then j > first + len else j < first + len) ==>
                            !In(syn, t, str[first..j])
    ensures start <= lastStart ==>
              var past := if len == -1 then lastStart + 1 else first;
              && (forall i, j :: start <= i < past && i <= j <= stop ==> !In(syn, t, str[i..j]))
              && (start < past && stop + 1 < past ==> !In(syn, t, []))
    ensures start > lastStart ==>
              var past := if len == -1 then lastStart else first + 1;
              && (forall i, j :: past <= i <= start && i <= j <= stop ==> !In(syn, t, str[i..j]))
              && (past <= start && stop < start ==> !In(syn, t, []))
  {
    if start <= lastStart {
      var past := if len == -1 then lastStart + 1 else first;
      NothingBegins(syn, t, str, stop, start, past);
    } else {
      var past := if len == -1 then lastStart else first + 1;
      NothingBegins(syn, t, str, stop, past, start + 1);
    }
    if len != -1 {
      forall j | first <= j <= stop && (if longest then j > first + len else j < first + len)
        ensures !In(syn, t, str[first..j])
      {
        assert !MatchesAt(syn, t, str, stop, first, j - first);
      }
    }
  }

  /** The byte is the character, or one in the bracket; a period takes any but a newline
      (10) without RE_DOT_NEWLINE and a NUL (0) with RE_DOT_NOT_NULL. */
  predicate LeafTakes(syn: Syntax, tok: Token, b: Byte) {
    || tok == Character(b)
    || (tok.SimpleBracket? && b in tok.sbcset)
    || (tok == Period && (b == 10 ==> syn.dotNewline) && (b == 0 ==> !syn.dotNotNull))
  }

  /** Searching a whole text with a single leaf finds the first byte the leaf takes. */
  lemma {:induction false} LeafFinds(syn: Syntax, tok: Token, str: seq<Byte>, longest: bool, first: int, len: int)
    requires tok.Character? || tok.SimpleBracket? || tok.Period?
    requires LeftmostLongest(syn, Tree.Node(tok, Tree.Nil, Tree.Nil), str, 0, |str|, |str|, longest, first, len)
    ensures len == -1 <==> forall i :: 0 <= i < |str| ==> !LeafTakes(syn, tok, str[i])
    ensures len != -1 ==>
              && len == 1 && 0 <= first < |str| && LeafTakes(syn, tok, str[first])
              && forall i :: 0 <= i < first ==> !LeafTakes(syn, tok, str[i])
  {
    var t := Tree.Node(tok, Tree.Nil, Tree.Nil);
    MatchedText(syn, t, str, 0, |str|, |str|, longest, first, len);
    hide LeftmostLongest;
    forall i, j | 0 <= i <= j <= |str|
      ensures In(syn, t, str[i..j]) <==> j == i + 1 && LeafTakes(syn, tok, str[i])
    {
    }
    forall i | 0 <= i < (if len == -1 then |str| else first)
      ensures !LeafTakes(syn, tok, str[i])
    {
      assert !In(syn, t, str[i..i + 1]);
    }
  }

  lemma {:induction false} InhabitedNodes(s: Shape)
    requires Inhabited(Skeleton(s))
    ensures forall n :: n in Nodes(s) && n.token.SimpleBracket? ==> n.token.sbcset != {}
  {
    if s.Node? {
      InhabitedNodes(s.left);
      InhabitedNodes(s.right);
    }
  }

  lemma {:induction false} ClosedIsEdgesIn(g: N.Nfa, last: nat)
    requires N.Closed(g, last)
    ensures EdgesIn(g)
  {
    forall q | 0 <= q < |g.edests|
      ensures (forall e :: e in g.edests[q] ==> e < |g.edests|) && (!IsEpsilon(g.nodes[q]) ==> g.edests[q] == [])
    {
      assert N.Closed1(g, q, last);
    }
  }

  lemma {:induction false} TokensHungry(syn: Syntax, nodes: seq<Token>, s: Shape)
    requires B.TokensFrom(nodes, s) && Inhabited(Skeleton(s))
    ensures Hungry(syn, nodes)
  {
    InhabitedNodes(s);
    forall q | 0 <= q < |nodes| && Consumes(nodes[q]) ensures AcceptSet(syn, nodes[q]) != {} {
      var n :| n in Nodes(s) && n.token == nodes[q];
      match nodes[q]
      case Character(c) => assert c in AcceptSet(syn, nodes[q]);
      case SimpleBracket(b) =>
        var c :| c in b;
        assert c in AcceptSet(syn, nodes[q]);
      case Period => assert 65 in AcceptSet(syn, nodes[q]);
    }
  }

  /** has_plural_match. */
  function HasPlural(nodes: seq<Token>): (r: bool)
    ensures r <==> exists q :: 0 <= q < |nodes| && (nodes[q] == Star || nodes[q] == Alt)
  {
    exists q :: 0 <= q < |nodes| && (nodes[q] == Star || nodes[q] == Alt)
  }

  lemma {:induction false} DecidesTree(re: Program, last: nat, tree: N.ITree, t: Tree)
    requires Compiled(re, last) && N.Wired(re.g, tree, last) && re.init == N.Entry(tree, last) && N.Erase(tree) == t
    ensures re.init < |re.ecl| && Decides(re, last, t)
  {
    forall w ensures Halts(re, last, w) <==> In(re.syn, t, w) {
      HaltsOnLanguage(re, last, tree, w);
    }
  }

  /** The part of re_compile_internal after parsing. */
  method Compile(root: BinTree, syn: Syntax, noSub: bool, nsub: nat, tableSize: nat, ghost s: Shape, ghost body: Shape,
                 ghost end: BinTree)
    returns (d: Dfa, init: State, rx: Regex)
    requires s.Node? && s.self == root && Holds(s, null) && B.Pattern(s, body, end) && root.next == null
    requires Inhabited(Skeleton(s)) && tableSize > 0
    modifies Nodes(s)`first, Nodes(s)`nodeIdx, Nodes(s)`next
    ensures fresh(d) && fresh(d.states) && d.Valid() && init in d.states && d.re.syn == syn
    ensures d.re.init < |d.re.ecl| && init.nodes == d.re.ecl[d.re.init]
    ensures RegexOk(d.re, d.last, rx) && rx.nsub == nsub && rx.noSub == noSub
    ensures Decides(d.re, d.last, Skeleton(body))
  {
    hide Holds, B.Pattern, N.Wired, Dfa.Valid, N.Closed, Hungry, Eclosed, Inverse, Decides, FastmapOk;
    var g, first;
    ghost var tree, last;
    g, first, tree, last := B.Analyze(root, s, body, end);
    ClosedIsEdgesIn(g, last);
    TokensHungry(syn, g.nodes, s);
    var ecl := CalcEclosures(g);
    var plural := HasPlural(g.nodes);
    var inv: seq<seq<nat>> := [];
    var hasInv := !noSub && nsub > 0 && plural;
    if hasInv {
      inv := CalcInveclosure(g, ecl);
    }
    var re := Program(syn, g, ecl, inv, hasInv, first);
    EntryInRange(g, tree, last);
    assert Compiled(re, last);
    d := new Dfa(re, tableSize, last);
    init := CreateInitialState(d);
    var fastmap, canBeNull := CompileFastmap(re, last, init);
    rx := Regex(fastmap, true, canBeNull, noSub, nsub, plural);
    DecidesTree(re, last, tree, Skeleton(body));
  }

  lemma {:induction false} EntryInRange(g: N.Nfa, t: N.ITree, last: nat)
    requires N.Wired(g, t, last) && N.IsEnd(g, last)
    ensures last < |g.nodes| && N.Entry(t, last) < |g.nodes|
    decreases t
  {
    if t.Node? && t.tok == Concat {
      WiredEntry(g, t, last);
    }
  }

  lemma {:induction false} WiredEntry(g: N.Nfa, t: N.ITree, k: nat)
    requires t.Node? && N.Wired(g, t, k)
    ensures t.idx < |g.nodes|
    decreases t
  {
    if t.tok == Concat {
      WiredEntry(g, t.left, t.right.idx);
    }
  }

  /** From the tree to the match: compile it, then search. */
  method CompileAndSearch(root: BinTree, syn: Syntax, noSub: bool, nsub: nat, tableSize: nat, str: seq<Byte>,
                          start: nat, lastStart: nat, stop: nat, nmatch: nat,
                          ghost s: Shape, ghost body: Shape, ghost end: BinTree)
    returns (first: int, len: int)
    requires s.Node? && s.self == root && Holds(s, null) && B.Pattern(s, body, end) && root.next == null
    requires Inhabited(Skeleton(s)) && tableSize > 0
    requires start <= |str| && lastStart <= |str| && stop <= |str|
    modifies Nodes(s)`first, Nodes(s)`nodeIdx, Nodes(s)`next
    ensures LeftmostLongest(syn, Skeleton(body), str, start, lastStart, stop, nmatch != 0, first, len)
    ensures len != -1 ==>
              0 <= len && if start <= lastStart then start <= first <= lastStart else lastStart <= first <= start
    ensures len != -1 && first <= stop ==> first + len <= stop && In(syn, Skeleton(body), str[first..first + len])
    ensures len != -1 && first > stop ==> len == 0 && In(syn, Skeleton(body), [])
    ensures len != -1 ==>
              forall j :: first <= j <= stop && (if nmatch != 0 then j > first + len else j < first + len) ==>
                            !In(syn, Skeleton(body), str[first..j])
    ensures start <= lastStart ==>
              var past := if len == -1 then lastStart + 1 else first;
              && (forall i, j :: start <= i < past && i <= j <= stop ==> !In(syn, Skeleton(body), str[i..j]))
              && (start < past && stop + 1 < past ==> !In(syn, Skeleton(body), []))
    ensures start > lastStart ==>
              var past := if len == -1 then lastStart else first + 1;
              && (forall i, j :: past <= i <= start && i <= j <= stop ==> !In(syn, Skeleton(body), str[i..j]))
              && (past <= start && stop < start ==> !In(syn, Skeleton(body), []))
  {
    hide Holds, B.Pattern, Registered, TableOk, CacheOk, Compiled, Decides, RegexOk, SearchResult, LeftmostLongest;
    var d, init, rx := Compile(root, syn, noSub, nsub, tableSize, s, body, end);
    first, len := ReSearchInternal(d, init, rx, str, start, lastStart, stop, nmatch);
    ResultIsLeftmostLongest(d.re, d.last, Skeleton(body), str, start, lastStart, stop, nmatch != 0, first, len);
    MatchedText(syn, Skeleton(body), str, start, lastStart, stop, nmatch != 0, first, len);
  }
}
