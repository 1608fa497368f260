/** How type sections are built: the loader appends one recursion group after the other, and the
    validator accepts a group whose references are in range and whose supertypes have no cycle. */
module TypeSections {
  import opened WasmTypes

  /** A bound above all numbers of a sequence. */
  function Above(s: seq<nat>): (m: nat)
    ensures forall i | 0 <= i < |s| :: s[i] < m
  {
    if s == [] then 0
    else
      var m := Above(s[..|s| - 1]);
      assert forall i | 0 <= i < |s| - 1 :: s[i] == s[..|s| - 1][i];
      if s[|s| - 1] < m then m else s[|s| - 1] + 1
  }

  /** The k-th member of a group that is to stand behind the types `ts`: its place in the group is
      recorded, its references are to the types before the group and to the group, and its supertypes
      are of its kind and lie before the group or lower in the given order of the group. */
  ghost predicate MemberFits(ts: seq<SubType>, g: seq<SubType>, order: seq<nat>, k: nat)
    requires k < |g| == |order|
  {
    && GroupSize(g[k]) == |g| && GroupOffset(g[k]) == k && SubBelow(g[k], |ts| + |g|)
    && forall j | 0 <= j < |g[k].supers| ::
         var s := g[k].supers[j];
         && (ts + g)[s].comp.Expand() == g[k].comp.Expand()
         && (s < |ts| || order[s - |ts|] < order[k])
  }

  /** The empty section is well formed, and a group whose members fit keeps a section well formed. */
  lemma EmptyIsWellFormed()
    ensures WfTypes([])
  {
    assert Ranked([], []);
  }

  lemma GroupKeepsWellFormed(ts: seq<SubType>, g: seq<SubType>, order: seq<nat>)
    requires WfTypes(ts) && g != [] && |order| == |g|
    requires forall k | 0 <= k < |g| :: MemberFits(ts, g, order, k)
    ensures WfTypes(ts + g)
  {
    var all := ts + g;
    forall i | 0 <= i < |ts| ensures WfAt(all, i) { OldMember(ts, g, i); }
    forall i | |ts| <= i < |all| ensures WfAt(all, i) { NewMember(ts, g, order, i - |ts|); }
    RankExtends(ts, g, order);
  }

  lemma OldMember(ts: seq<SubType>, g: seq<SubType>, i: nat)
    requires WfTypes(ts) && i < |ts|
    ensures WfAt(ts + g, i)
  {
    assert WfAt(ts, i);
    var start := i - GroupOffset(ts[i]);
    assert IsGroup(ts + g, start, GroupSize(ts[i]));
  }

  lemma NewMember(ts: seq<SubType>, g: seq<SubType>, order: seq<nat>, k: nat)
    requires k < |g| == |order| && forall j | 0 <= j < |g| :: MemberFits(ts, g, order, j)
    ensures WfAt(ts + g, |ts| + k)
  {
    assert MemberFits(ts, g, order, k);
    var all := ts + g;
    forall j | |ts| <= j < |all| ensures GroupSize(all[j]) == |g| && GroupOffset(all[j]) == j - |ts| {
      assert all[j] == g[j - |ts|] && MemberFits(ts, g, order, j - |ts|);
    }
    assert IsGroup(all, |ts|, |g|);
  }

  lemma RankExtends(ts: seq<SubType>, g: seq<SubType>, order: seq<nat>)
    requires WfTypes(ts) && |order| == |g| && forall k | 0 <= k < |g| :: MemberFits(ts, g, order, k)
    ensures Acyclic(ts + g)
  {
    var low := Rank(ts);
    var m := Above(low);
    var rank := low + seq(|g|, k requires 0 <= k < |g| => m + order[k]);
    forall i | 0 <= i < |ts + g| ensures RankFallsAt(ts + g, rank, i) {
      if i < |ts| {
        assert RankFallsAt(ts, low, i);
      } else {
        assert MemberFits(ts, g, order, i - |ts|);
      }
    }
    assert Ranked(ts + g, rank);
  }
}
