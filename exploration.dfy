/**
 * Which positions the search moves into. Every position it plays is
 * reached from the starting one by legal moves, at most `depth` of them;
 * and once a node's window closes (beta <= alpha), no later sibling move
 * is played.
 */
module Exploration {
  import opened Pieces
  import opened Scores
  import opened ChessGame
  import opened Search

  /** t continues h by at least one move, each legal where it is played. */
  predicate LegalLine(rules: Rules, h: History, t: History)
  {
    && |h| < |t| && t[..|h|] == h
    && forall k :: |h| <= k < |t| ==> t[k] in rules.legalMoves(t[..k])
  }

  /** A legal line from h + [m], with m legal at h, is a legal line from h. */
  lemma LineExtends(rules: Rules, h: History, m: Move, t: History)
    requires m in rules.legalMoves(h)
    requires LegalLine(rules, h + [m], t)
    ensures LegalLine(rules, h, t)
  {
    var c := h + [m];
    assert t[..|h|] == t[..|c|][..|h|] == c[..|h|] == h;
    forall k | |h| <= k < |t|
      ensures t[k] in rules.legalMoves(t[..k])
    {
      if k == |h| {
        assert t[k] == t[..|c|][k] == c[k] == m;
      }
    }
  }

  /** Every position in ts continues h by a legal line of at most depth moves. */
  predicate Explored(rules: Rules, h: History, depth: nat, ts: seq<History>)
    decreases |ts|
  {
    ts == [] || (LegalLine(rules, h, ts[0]) && |ts[0]| <= |h| + depth && Explored(rules, h, depth, ts[1..]))
  }

  lemma {:induction false} ExploredMembers(rules: Rules, h: History, depth: nat, ts: seq<History>)
    requires Explored(rules, h, depth, ts)
    ensures forall t :: t in ts ==> LegalLine(rules, h, t) && |t| <= |h| + depth
    decreases |ts|
  {
    if ts != [] {
      ExploredMembers(rules, h, depth, ts[1..]);
      assert forall t :: t in ts ==> t == ts[0] || t in ts[1..];
    }
  }

  lemma {:induction false} ExploredConcat(rules: Rules, h: History, depth: nat, a: seq<History>, b: seq<History>)
    requires Explored(rules, h, depth, a) && Explored(rules, h, depth, b)
    ensures Explored(rules, h, depth, a + b)
    decreases |a|
  {
    if a == [] {
      assert a + b == b;
    } else {
      ExploredConcat(rules, h, depth, a[1..], b);
      assert (a + b)[0] == a[0] && (a + b)[1..] == a[1..] + b;
    }
  }

  /** Legal lines from h + [m], with m legal at h, are legal lines from h
      one move longer at most. */
  lemma {:induction false} ExploredBelow(rules: Rules, h: History, m: Move, depth: nat, ts: seq<History>)
    requires depth > 0 && m in rules.legalMoves(h)
    requires Explored(rules, h + [m], depth - 1, ts)
    ensures Explored(rules, h, depth, ts)
    decreases |ts|
  {
    if ts != [] {
      LineExtends(rules, h, m, ts[0]);
      ExploredBelow(rules, h, m, depth, ts[1..]);
    }
  }

  /** One turn of the move loop keeps to legal lines: the move's
      position, the lines below it and the rest of the loop. */
  lemma ExploredTurn(rules: Rules, h: History, depth: nat, m: Move, below: seq<History>, rest: seq<History>)
    requires depth > 0 && m in rules.legalMoves(h)
    requires Explored(rules, h + [m], depth - 1, below)
    requires Explored(rules, h, depth, rest)
    ensures Explored(rules, h, depth, [h + [m]] + below + rest)
  {
    assert Explored(rules, h, depth, [h + [m]]) by {
      assert (h + [m])[..|h|] == h;
      assert [h + [m]][1..] == [];
    }
    ExploredBelow(rules, h, m, depth, below);
    ExploredConcat(rules, h, depth, [h + [m]], below);
    ExploredConcat(rules, h, depth, [h + [m]] + below, rest);
  }

  /** The position c and the legal lines from c all start with c. */
  lemma StartWith(rules: Rules, c: History, depth: nat, ts: seq<History>)
    requires Explored(rules, c, depth, ts)
    ensures forall t :: t in [c] + ts ==> |c| <= |t| && t[..|c|] == c
  {
    ExploredMembers(rules, c, depth, ts);
  }

  lemma {:induction false} TraceExplores(rules: Rules, h: History, depth: nat, alpha: Score, beta: Score, isMax: bool)
    ensures Explored(rules, h, depth, Trace(rules, h, depth, alpha, beta, isMax))
    decreases depth, 1, 0
  {
    if depth > 0 {
      ScanTraceExplores(rules, h, depth, rules.legalMoves(h), 0, Window(alpha, beta, Initial(isMax)), isMax);
    }
  }

  lemma {:induction false} ScanTraceExplores(rules: Rules, h: History, depth: nat, moves: seq<Move>, i: nat, w: Window, isMax: bool)
    requires depth > 0 && i <= |moves| && moves == rules.legalMoves(h)
    ensures Explored(rules, h, depth, ScanTrace(rules, h, depth, moves, i, w, isMax))
    decreases depth, 0, |moves| - i
  {
    if i < |moves| {
      var child := h + [moves[i]];
      var w' := Update(w, AlphaBeta(rules, child, depth - 1, w.alpha, w.beta, !isMax), isMax);
      var below := Trace(rules, child, depth - 1, w.alpha, w.beta, !isMax);
      var rest := if Cutoff(w') then [] else ScanTrace(rules, h, depth, moves, i + 1, w', isMax);
      TraceExplores(rules, child, depth - 1, w.alpha, w.beta, !isMax);
      if !Cutoff(w') {
        ScanTraceExplores(rules, h, depth, moves, i + 1, w', isMax);
      }
      ExploredTurn(rules, h, depth, moves[i], below, rest);
      ScanTraceStep(rules, h, depth, moves, i, w, isMax);
    }
  }

  /** The search only ever plays legal lines from the position it starts
      at, never deeper than its depth. */
  lemma SearchPlaysLegalLines(rules: Rules, h: History, depth: nat, alpha: Score, beta: Score, isMax: bool)
    ensures forall t :: t in Trace(rules, h, depth, alpha, beta, isMax) ==>
              |h| < |t| <= |h| + depth && t[..|h|] == h
    ensures forall t, k :: t in Trace(rules, h, depth, alpha, beta, isMax) && |h| <= k < |t| ==>
              t[k] in rules.legalMoves(t[..k])
  {
    TraceExplores(rules, h, depth, alpha, beta, isMax);
    ExploredMembers(rules, h, depth, Trace(rules, h, depth, alpha, beta, isMax));
  }

  /** Once the i-th move closes the window, the loop returns the best
      score so far, and everything it plays from the i-th turn on lies
      below the i-th move: no later sibling is played. */
  lemma CutoffSkipsSiblings(rules: Rules, h: History, depth: nat, moves: seq<Move>, i: nat, w: Window, isMax: bool)
    requires depth > 0 && i < |moves| && moves == rules.legalMoves(h)
    requires Cutoff(Update(w, AlphaBeta(rules, h + [moves[i]], depth - 1, w.alpha, w.beta, !isMax), isMax))
    ensures Scan(rules, h, depth, moves, i, w, isMax)
            == Update(w, AlphaBeta(rules, h + [moves[i]], depth - 1, w.alpha, w.beta, !isMax), isMax).best
    ensures forall t :: t in ScanTrace(rules, h, depth, moves, i, w, isMax) ==>
              |h| < |t| && t[..|h| + 1] == h + [moves[i]]
  {
    var child := h + [moves[i]];
    var below := Trace(rules, child, depth - 1, w.alpha, w.beta, !isMax);
    ScanStep(rules, h, depth, moves, i, w, isMax);
    ScanTraceStep(rules, h, depth, moves, i, w, isMax);
    assert ScanTrace(rules, h, depth, moves, i, w, isMax) == [child] + below;
    assert Explored(rules, child, depth - 1, below) by {
      TraceExplores(rules, child, depth - 1, w.alpha, w.beta, !isMax);
    }
    StartWith(rules, child, depth - 1, below);
  }
}
