/** Queries over facts that fall apart into pieces sharing no node: a connected
pattern is answered piece by piece, so row counts add up. */
module Components {
  import opened Patterns

  /** The nodes of a graph: entities and values. */
  function Nodes(facts: Facts): set<Term> {
    (set t | t in facts :: t.e) + (set t | t in facts :: t.v)
  }

  function EndVars(c: Clause): set<Name> {
    SlotVars(c.e) + SlotVars(c.v)
  }

  /** Every clause but the first shares a node variable with an earlier one. */
  ghost predicate Connected(p: Pattern) {
    && p != []
    && EndVars(p[0]) != {}
    && forall i :: 1 <= i < |p| ==> exists j :: 0 <= j < i && EndVars(p[j]) * EndVars(p[i]) != {}
  }

  /** A matched clause binds its node variables to nodes. */
  lemma MatchedNodes(c: Clause, row: Row, facts: Facts, n: Name)
    requires Holds(c, row, facts) && n in EndVars(c)
    ensures n in row && row[n] in Nodes(facts)
  {
    var t :| t in facts && ClauseIs(c, row, t);
  }

  lemma Reunited(c: Clause, row: Row, f: Facts, g: Facts)
    ensures Holds(c, row, f + g) <==> Holds(c, row, f) || Holds(c, row, g)
  {
    if Holds(c, row, f + g) {
      var t :| t in f + g && ClauseIs(c, row, t);
      assert t in f || t in g;
    }
  }

  /** Once the first clause is matched in one piece, the rest follow it. */
  lemma {:induction false} Followed(f: Facts, g: Facts, p: Pattern, row: Row, i: nat)
    requires Nodes(f) !! Nodes(g) && Connected(p) && i < |p|
    requires forall j :: 0 <= j < |p| ==> Holds(p[j], row, f + g)
    requires Holds(p[0], row, f)
    ensures Holds(p[i], row, f)
    decreases i
  {
    hide Holds, Nodes, EndVars;
    if i > 0 {
      var j :| 0 <= j < i && EndVars(p[j]) * EndVars(p[i]) != {};
      Followed(f, g, p, row, j);
      var n :| n in EndVars(p[j]) * EndVars(p[i]);
      MatchedNodes(p[j], row, f, n);
      Reunited(p[i], row, f, g);
      if Holds(p[i], row, g) {
        MatchedNodes(p[i], row, g, n);
      }
    }
  }

  ghost predicate HoldsAll(p: Pattern, row: Row, facts: Facts) {
    row.Keys == Vars(p) && forall i :: 0 <= i < |p| ==> Holds(p[i], row, facts)
  }

  lemma QueryHolds(facts: Facts, p: Pattern, row: Row)
    ensures row in Query(facts, p) <==> HoldsAll(p, row, facts)
  {
    hide Holds, Query;
    QueryCorrect(facts, p, row);
  }

  lemma SomePiece(f: Facts, g: Facts, p: Pattern, row: Row)
    requires Nodes(f) !! Nodes(g) && Connected(p)
    ensures HoldsAll(p, row, f + g) <==> HoldsAll(p, row, f) || HoldsAll(p, row, g)
    ensures !(HoldsAll(p, row, f) && HoldsAll(p, row, g))
  {
    hide Holds, Nodes, EndVars, Vars;
    forall i | 0 <= i < |p|
      ensures Holds(p[i], row, f + g) <==> Holds(p[i], row, f) || Holds(p[i], row, g)
    {
      Reunited(p[i], row, f, g);
    }
    if HoldsAll(p, row, f + g) {
      if Holds(p[0], row, f) {
        forall i | 0 <= i < |p| ensures Holds(p[i], row, f) { Followed(f, g, p, row, i); }
      } else {
        assert g + f == f + g;
        forall i | 0 <= i < |p| ensures Holds(p[i], row, g) { Followed(g, f, p, row, i); }
      }
    }
    var n :| n in EndVars(p[0]);
    assert Holds(p[0], row, f) ==> n in row && row[n] in Nodes(f) by {
      if Holds(p[0], row, f) { MatchedNodes(p[0], row, f, n); }
    }
    assert Holds(p[0], row, g) ==> n in row && row[n] in Nodes(g) by {
      if Holds(p[0], row, g) { MatchedNodes(p[0], row, g, n); }
    }
  }

  /** A connected pattern over two pieces without a common node has the rows of
      the one and the rows of the other, and none in common. */
  lemma RowsAddUp(f: Facts, g: Facts, p: Pattern)
    requires Nodes(f) !! Nodes(g) && Connected(p)
    ensures Query(f + g, p) == Query(f, p) + Query(g, p)
    ensures Query(f, p) !! Query(g, p)
    ensures |Query(f + g, p)| == |Query(f, p)| + |Query(g, p)|
  {
    hide Query, HoldsAll, Nodes, Connected;
    forall row
      ensures row in Query(f + g, p) <==> row in Query(f, p) || row in Query(g, p)
      ensures !(row in Query(f, p) && row in Query(g, p))
    {
      QueryHolds(f + g, p, row);
      QueryHolds(f, p, row);
      QueryHolds(g, p, row);
      SomePiece(f, g, p, row);
    }
  }
}
