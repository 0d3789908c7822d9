/**
 Route expansion between two nodes: the first rule that contains both ends is walked from one
 to the other, in either direction, and each hop is looked up in the cross file of its node.
 */
module Routes {
  import opened Words

  /** An entry without an array of nodes is skipped; a rule file may not be an array at all. */
  datatype Rule = NoRule | Nodes(ids: seq<string>)
  datatype RuleFile = NotAnArray | Rules(rules: seq<Rule>)

  /** A node's cross file: the neighbours with the point leading to each, in file order. */
  datatype Crossing = Crossing(neighbor: string, info: string)
  type Crossings = map<string, seq<Crossing>>

  // ---------------------------------------------------------------------------
  // Looking up one hop
  // ---------------------------------------------------------------------------

  /** A missing, unreadable or non-array file has no entry in `files` or an empty one. */
  function Lookup(crossings: seq<Crossing>, neighbor: string): Option<string>
    decreases crossings
  {
    if crossings == [] then None
    else if crossings[0].neighbor == neighbor then Some(crossings[0].info)
    else Lookup(crossings[1..], neighbor)
  }

  function Hop(files: Crossings, from: string, to: string): Option<string> {
    if from in files then Lookup(files[from], to) else None
  }

  /** Entry k is the first for the neighbour. */
  predicate FirstEntry(cs: seq<Crossing>, neighbor: string, k: nat) {
    && k < |cs| && cs[k].neighbor == neighbor
    && forall i :: 0 <= i < k ==> cs[i].neighbor != neighbor
  }

  /** Of several entries for the neighbour the first counts. */
  lemma {:induction false} LookupIsFirst(cs: seq<Crossing>, neighbor: string, k: nat)
    requires FirstEntry(cs, neighbor, k)
    ensures Lookup(cs, neighbor) == Some(cs[k].info)
    decreases cs
  {
    if k == 0 {
    } else {
      LookupIsFirst(cs[1..], neighbor, k - 1);
    }
  }

  lemma {:induction false} LookupFinds(cs: seq<Crossing>, neighbor: string)
    ensures Lookup(cs, neighbor).Some? <==> exists k :: 0 <= k < |cs| && cs[k].neighbor == neighbor
    decreases cs
  {
    if cs == [] {
    } else {
      LookupFinds(cs[1..], neighbor);
      if k :| 0 <= k < |cs| && cs[k].neighbor == neighbor {
        assert k > 0 ==> cs[1..][k - 1].neighbor == neighbor;
      }
    }
  }

  lemma {:induction false} LookupTakes(cs: seq<Crossing>, neighbor: string) returns (k: nat)
    requires Lookup(cs, neighbor).Some?
    ensures FirstEntry(cs, neighbor, k) && Lookup(cs, neighbor) == Some(cs[k].info)
    decreases cs
  {
    if cs[0].neighbor == neighbor {
      k := 0;
    } else {
      var j := LookupTakes(cs[1..], neighbor);
      k := j + 1;
    }
  }

  /** The node has a cross file with an entry for the next node. */
  predicate Leads(files: Crossings, from: string, to: string) {
    from in files && exists k :: 0 <= k < |files[from]| && files[from][k].neighbor == to
  }

  /** The point of the first such entry. */
  ghost predicate LeadsBy(files: Crossings, from: string, to: string, p: string) {
    from in files && exists k: nat :: FirstEntry(files[from], to, k) && files[from][k].info == p
  }

  /** A hop has a point exactly if its node's file has an entry for the next node, and then the first one's. */
  lemma HopExactly(files: Crossings, from: string, to: string, p: string)
    ensures Hop(files, from, to).Some? <==> Leads(files, from, to)
    ensures Hop(files, from, to) == Some(p) <==> LeadsBy(files, from, to, p)
  {
    if from in files {
      LookupFinds(files[from], to);
      if Hop(files, from, to).Some? {
        var k := LookupTakes(files[from], to);
      }
      if k: nat :| FirstEntry(files[from], to, k) && files[from][k].info == p {
        LookupIsFirst(files[from], to, k);
      }
    }
  }

  method LoadPoint(files: Crossings, id: string, neighbor: string) returns (found: bool, info: string)
    ensures (if found then Some(info) else None) == Hop(files, id, neighbor)
    ensures found <==> Leads(files, id, neighbor)
    ensures found ==> LeadsBy(files, id, neighbor, info)
    ensures !found ==> info == ""
  {
    if Hop(files, id, neighbor).Some? {
      HopExactly(files, id, neighbor, Hop(files, id, neighbor).value);
    } else {
      HopExactly(files, id, neighbor, "");
    }
    if id !in files {
      return false, "";
    }
    var d := files[id];
    assert d[0..] == d;
    for i := 0 to |d|
      invariant Lookup(d, neighbor) == Lookup(d[i..], neighbor)
    {
      if d[i].neighbor == neighbor {
        return true, d[i].info;
      }
      assert d[i..][1..] == d[i + 1..];
    }
    return false, "";
  }

  // ---------------------------------------------------------------------------
  // Choosing a rule
  // ---------------------------------------------------------------------------

  /** The last position of an id, -1 for none: later matches overwrite earlier ones. */
  function LastIndex(ids: seq<string>, id: string): (i: int)
    ensures -1 <= i < |ids|
    ensures i >= 0 ==> ids[i] == id
    ensures forall k :: i < k < |ids| ==> ids[k] != id
    decreases ids
  {
    if ids == [] then -1
    else if ids[|ids| - 1] == id then |ids| - 1
    else LastIndex(ids[..|ids| - 1], id)
  }

  lemma IndexOfMember(ids: seq<string>, id: string)
    ensures LastIndex(ids, id) >= 0 <==> id in ids
  {
  }

  predicate Matches(r: Rule, from: string, to: string) {
    r.Nodes? && from in r.ids && to in r.ids
  }

  function Reverse(s: seq<string>): (r: seq<string>)
    ensures |r| == |s|
    ensures forall k :: 0 <= k < |s| ==> r[k] == s[|s| - 1 - k]
    decreases s
  {
    if s == [] then [] else [s[|s| - 1]] + Reverse(s[..|s| - 1])
  }

  /** The walk from one end to the other, both included. */
  function Walk(ids: seq<string>, from: nat, to: nat): (ns: seq<string>)
    requires from < |ids| && to < |ids|
    ensures |ns| == (if from < to then to - from else from - to) + 1
  {
    if from <= to then ids[from..to + 1] else Reverse(ids[to..from + 1])
  }

  function FirstMatch(rules: seq<Rule>, from: string, to: string): Option<seq<string>>
    decreases rules
  {
    if rules == [] then None
    else if Matches(rules[0], from, to) then
      var ids := rules[0].ids;
      IndexOfMember(ids, from);
      IndexOfMember(ids, to);
      Some(Walk(ids, LastIndex(ids, from), LastIndex(ids, to)))
    else FirstMatch(rules[1..], from, to)
  }

  // ---------------------------------------------------------------------------
  // Expanding it
  // ---------------------------------------------------------------------------

  /** The points along a walk, if every hop has one. */
  function Points(files: Crossings, nodes: seq<string>): Option<seq<string>>
    decreases nodes
  {
    if |nodes| <= 1 then Some([])
    else
      var m := |nodes| - 1;
      match Points(files, nodes[..m])
      case None => None
      case Some(ps) =>
        match Hop(files, nodes[m - 1], nodes[m])
        case None => None
        case Some(p) => Some(ps + [p])
  }

  /** A rule file that is not an array counts as a success with no points. */
  function Expand(file: RuleFile, files: Crossings, from: string, to: string): Option<seq<string>> {
    match file
    case NotAnArray => Some([])
    case Rules(rules) =>
      match FirstMatch(rules, from, to)
      case None => None
      case Some(nodes) => Points(files, nodes)
  }

  /** Both ends of one rule. */
  method FindEnds(ids: seq<string>, from: string, to: string) returns (fromIndex: int, toIndex: int)
    ensures fromIndex == LastIndex(ids, from) && toIndex == LastIndex(ids, to)
  {
    fromIndex, toIndex := -1, -1;
    for j := 0 to |ids|
      invariant fromIndex == LastIndex(ids[..j], from) && toIndex == LastIndex(ids[..j], to)
    {
      if ids[j] == from {
        fromIndex := j;
      }
      if ids[j] == to {
        toIndex := j;
      }
      assert ids[..j + 1][..j] == ids[..j];
    }
    assert ids[..|ids|] == ids;
  }

  lemma PointsOneMore(files: Crossings, nodes: seq<string>, k: nat, result: seq<string>)
    requires 1 <= k < |nodes| && Points(files, nodes[..k]) == Some(result)
    ensures Points(files, nodes[..k + 1])
            == match Hop(files, nodes[k - 1], nodes[k])
               case None => None
               case Some(p) => Some(result + [p])
  {
    assert nodes[..k + 1][..k] == nodes[..k];
  }

  lemma {:induction false} PointsStop(files: Crossings, nodes: seq<string>, k: nat)
    requires k <= |nodes| && Points(files, nodes[..k]) == None
    ensures Points(files, nodes) == None
    decreases |nodes| - k
  {
    if k == |nodes| {
      assert nodes[..k] == nodes;
    } else {
      assert nodes[..k + 1][..k] == nodes[..k];
      PointsStop(files, nodes, k + 1);
    }
  }

  lemma WalkUp(ids: seq<string>, from: nat, to: nat, k: nat)
    requires from <= k <= to < |ids|
    ensures Walk(ids, from, to)[k - from] == ids[k]
  {
  }

  lemma WalkDown(ids: seq<string>, from: nat, to: nat, k: nat)
    requires to <= k <= from < |ids|
    ensures Walk(ids, from, to)[from - k] == ids[k]
  {
    if to < from {
      var s := ids[to..from + 1];
      assert Reverse(s)[from - k] == s[k - to];
    }
  }

  /** One more hop, from a to b: the points so far get one more, or the walk has none. */
  lemma PointsStep(files: Crossings, nodes: seq<string>, m: nat, a: string, b: string, result: seq<string>)
    requires 1 <= m < |nodes| && nodes[m - 1] == a && nodes[m] == b
    requires Points(files, nodes[..m]) == Some(result)
    ensures match Hop(files, a, b)
            case None => Points(files, nodes) == None
            case Some(p) => Points(files, nodes[..m + 1]) == Some(result + [p])
  {
    PointsOneMore(files, nodes, m, result);
    if Hop(files, a, b) == None {
      PointsStop(files, nodes, m + 1);
    }
  }

  lemma UpStep(files: Crossings, ids: seq<string>, from: nat, to: nat, nodes: seq<string>, k: nat, result: seq<string>)
    requires from <= k < to < |ids| && nodes == Walk(ids, from, to)
    requires Points(files, nodes[..k - from + 1]) == Some(result)
    ensures match Hop(files, ids[k], ids[k + 1])
            case None => Points(files, nodes) == None
            case Some(p) => Points(files, nodes[..k - from + 2]) == Some(result + [p])
  {
    WalkUp(ids, from, to, k);
    WalkUp(ids, from, to, k + 1);
    PointsStep(files, nodes, k - from + 1, ids[k], ids[k + 1], result);
  }

  lemma DownStep(files: Crossings, ids: seq<string>, from: nat, to: nat, nodes: seq<string>, k: nat, result: seq<string>)
    requires to < k <= from < |ids| && nodes == Walk(ids, from, to)
    requires Points(files, nodes[..from - k + 1]) == Some(result)
    ensures match Hop(files, ids[k], ids[k - 1])
            case None => Points(files, nodes) == None
            case Some(p) => Points(files, nodes[..from - k + 2]) == Some(result + [p])
  {
    WalkDown(ids, from, to, k);
    WalkDown(ids, from, to, k - 1);
    PointsStep(files, nodes, from - k + 1, ids[k], ids[k - 1], result);
  }

  /** The loop upward. */
  method CollectUp(files: Crossings, ids: seq<string>, fromIndex: nat, toIndex: nat, ghost nodes: seq<string>)
      returns (ok: bool, result: seq<string>)
    requires fromIndex <= toIndex < |ids| && nodes == Walk(ids, fromIndex, toIndex)
    ensures (if ok then Some(result) else None) == Points(files, nodes)
  {
    result := [];
    var found, p;
    var k := fromIndex;
    while k < toIndex
      invariant fromIndex <= k <= toIndex
      invariant Points(files, nodes[..k - fromIndex + 1]) == Some(result)
    {
      UpStep(files, ids, fromIndex, toIndex, nodes, k, result);
      found, p := LoadPoint(files, ids[k], ids[k + 1]);
      if !found {
        return false, result;
      }
      result := result + [p];
      k := k + 1;
    }
    assert nodes[..|nodes|] == nodes;
    return true, result;
  }

  /** The loop downward. */
  method CollectDown(files: Crossings, ids: seq<string>, fromIndex: nat, toIndex: nat, ghost nodes: seq<string>)
      returns (ok: bool, result: seq<string>)
    requires toIndex <= fromIndex < |ids| && nodes == Walk(ids, fromIndex, toIndex)
    ensures (if ok then Some(result) else None) == Points(files, nodes)
  {
    result := [];
    var found, p;
    var k := fromIndex;
    while k > toIndex
      invariant toIndex <= k <= fromIndex
      invariant Points(files, nodes[..fromIndex - k + 1]) == Some(result)
    {
      DownStep(files, ids, fromIndex, toIndex, nodes, k, result);
      found, p := LoadPoint(files, ids[k], ids[k - 1]);
      if !found {
        return false, result;
      }
      result := result + [p];
      k := k - 1;
    }
    assert nodes[..|nodes|] == nodes;
    return true, result;
  }

  /** The hops of a matching rule. */
  method CollectPoints(files: Crossings, ids: seq<string>, fromIndex: nat, toIndex: nat)
      returns (ok: bool, result: seq<string>)
    requires fromIndex < |ids| && toIndex < |ids|
    ensures (if ok then Some(result) else None) == Points(files, Walk(ids, fromIndex, toIndex))
  {
    if fromIndex < toIndex {
      ok, result := CollectUp(files, ids, fromIndex, toIndex, Walk(ids, fromIndex, toIndex));
    } else {
      ok, result := CollectDown(files, ids, fromIndex, toIndex, Walk(ids, fromIndex, toIndex));
    }
  }

  /** The whole function; the source returns `ok` and prints the points. */
  method CrossMap(file: RuleFile, files: Crossings, from: string, to: string)
      returns (ok: bool, result: seq<string>)
    ensures (if ok then Some(result) else None) == Expand(file, files, from, to)
    ensures file.NotAnArray? ==> ok && result == []
  {
    result := [];
    if file.Rules? {
      var rules := file.rules;
      assert rules[0..] == rules;
      for i := 0 to |rules|
        invariant FirstMatch(rules, from, to) == FirstMatch(rules[i..], from, to)
      {
        assert rules[i..][1..] == rules[i + 1..];
        if rules[i].Nodes? {
          var ids := rules[i].ids;
          var fromIndex, toIndex := FindEnds(ids, from, to);
          IndexOfMember(ids, from);
          IndexOfMember(ids, to);
          if fromIndex != -1 && toIndex != -1 {
            ok, result := CollectPoints(files, ids, fromIndex, toIndex);
            return ok, result;
          }
        }
      }
      return false, result;
    }
    return true, result;
  }

  // ---------------------------------------------------------------------------
  // What a route is
  // ---------------------------------------------------------------------------

  /** Neighbours in the rule, in either order. */
  predicate Adjacent(ids: seq<string>, a: string, b: string) {
    exists i :: 0 <= i < |ids| - 1 && ((ids[i] == a && ids[i + 1] == b) || (ids[i] == b && ids[i + 1] == a))
  }

  lemma WalkIsChain(ids: seq<string>, from: nat, to: nat)
    requires from < |ids| && to < |ids|
    ensures var ns := Walk(ids, from, to);
            && ns[0] == ids[from] && ns[|ns| - 1] == ids[to]
            && forall k :: 0 <= k < |ns| - 1 ==> Adjacent(ids, ns[k], ns[k + 1])
  {
    var ns := Walk(ids, from, to);
    forall k | 0 <= k < |ns| - 1 ensures Adjacent(ids, ns[k], ns[k + 1]) {
      var i := if from <= to then from + k else from - k - 1;
      assert 0 <= i < |ids| - 1;
      if from <= to {
        assert ids[i] == ns[k] && ids[i + 1] == ns[k + 1];
      } else {
        assert ids[i + 1] == ns[k] && ids[i] == ns[k + 1];
      }
    }
  }

  /** Exactly one point a hop, each the lookup of its two nodes. */
  lemma {:induction false} PointsAreHops(files: Crossings, nodes: seq<string>)
    requires nodes != [] && Points(files, nodes).Some?
    ensures var ps := Points(files, nodes).value;
            && |ps| == |nodes| - 1
            && forall k :: 0 <= k < |ps| ==> Hop(files, nodes[k], nodes[k + 1]) == Some(ps[k])
    decreases nodes
  {
    if |nodes| <= 1 {
    } else {
      PointsAreHops(files, nodes[..|nodes| - 1]);
    }
  }

  /** Every node of the walk but the last leads to the next. */
  ghost predicate HopsExist(files: Crossings, nodes: seq<string>) {
    forall k :: 1 <= k < |nodes| ==> Leads(files, nodes[k - 1], nodes[k])
  }

  lemma HopsOneMore(files: Crossings, front: seq<string>, last: string)
    requires front != []
    ensures HopsExist(files, front + [last])
            <==> HopsExist(files, front) && Leads(files, front[|front| - 1], last)
  {
    var nodes, m := front + [last], |front|;
    assert nodes[m - 1] == front[m - 1] && nodes[m] == last;
    if HopsExist(files, nodes) {
      forall k | 1 <= k < m ensures Leads(files, front[k - 1], front[k]) {
        assert Leads(files, nodes[k - 1], nodes[k]);
      }
    }
  }

  /** An expansion fails only for want of a rule or of a hop. */
  lemma {:induction false} PointsExist(files: Crossings, nodes: seq<string>)
    ensures Points(files, nodes).Some? <==> HopsExist(files, nodes)
    decreases nodes
  {
    if |nodes| <= 1 {
    } else {
      var front, last := nodes[..|nodes| - 1], nodes[|nodes| - 1];
      PointsExist(files, front);
      HopsOneMore(files, front, last);
      HopExactly(files, front[|front| - 1], last, "");
      assert front + [last] == nodes;
    }
  }

  /** Both ends are nodes of the rule. */
  predicate HasBoth(r: Rule, from: string, to: string) {
    r.Nodes? && (exists a :: 0 <= a < |r.ids| && r.ids[a] == from) && (exists b :: 0 <= b < |r.ids| && r.ids[b] == to)
  }

  lemma MatchesExactly(r: Rule, from: string, to: string)
    ensures Matches(r, from, to) <==> HasBoth(r, from, to)
  {
  }

  /** Rule i is the first that contains both ends. */
  predicate IsFirstMatch(rules: seq<Rule>, i: nat, from: string, to: string) {
    && i < |rules| && HasBoth(rules[i], from, to)
    && forall k :: 0 <= k < i ==> !HasBoth(rules[k], from, to)
  }

  lemma {:induction false} FirstMatchIsFirst(rules: seq<Rule>, from: string, to: string) returns (i: nat)
    requires FirstMatch(rules, from, to).Some?
    ensures IsFirstMatch(rules, i, from, to)
    ensures var ids := rules[i].ids;
            && LastIndex(ids, from) >= 0 && LastIndex(ids, to) >= 0
            && FirstMatch(rules, from, to) == Some(Walk(ids, LastIndex(ids, from), LastIndex(ids, to)))
    decreases rules
  {
    MatchesExactly(rules[0], from, to);
    if Matches(rules[0], from, to) {
      IndexOfMember(rules[0].ids, from);
      IndexOfMember(rules[0].ids, to);
      i := 0;
    } else {
      var j := FirstMatchIsFirst(rules[1..], from, to);
      i := j + 1;
    }
  }

  lemma {:induction false} MatchExists(rules: seq<Rule>, from: string, to: string)
    ensures FirstMatch(rules, from, to).Some? <==> exists i :: 0 <= i < |rules| && HasBoth(rules[i], from, to)
    decreases rules
  {
    if rules == [] {
    } else {
      MatchesExactly(rules[0], from, to);
      MatchExists(rules[1..], from, to);
      if i :| 0 <= i < |rules| && HasBoth(rules[i], from, to) {
        assert i > 0 ==> HasBoth(rules[1..][i - 1], from, to);
      }
    }
  }

  /** The last position of an id. */
  predicate IsLast(ids: seq<string>, id: string, i: nat) {
    i < |ids| && ids[i] == id && forall k :: i < k < |ids| ==> ids[k] != id
  }

  /** The k-th node on the way from position a to position b. */
  function NodeAt(ids: seq<string>, a: nat, b: nat, k: nat): string
    requires a < |ids| && b < |ids| && k <= (if a <= b then b - a else a - b)
  {
    if a <= b then ids[a + k] else ids[a - k]
  }

  ghost predicate Passable(files: Crossings, ids: seq<string>, a: nat, b: nat)
    requires a < |ids| && b < |ids|
  {
    forall k :: 0 <= k < (if a <= b then b - a else a - b) ==> Leads(files, NodeAt(ids, a, b, k), NodeAt(ids, a, b, k + 1))
  }

  lemma WalkNodes(ids: seq<string>, a: nat, b: nat, k: nat)
    requires a < |ids| && b < |ids| && k <= (if a <= b then b - a else a - b)
    ensures k < |Walk(ids, a, b)| && Walk(ids, a, b)[k] == NodeAt(ids, a, b, k)
  {
    if a <= b {
      var i := a + k;
      WalkUp(ids, a, b, i);
    } else {
      var i := a - k;
      WalkDown(ids, a, b, i);
    }
  }

  lemma WalkPassable(files: Crossings, ids: seq<string>, a: nat, b: nat)
    requires a < |ids| && b < |ids|
    ensures HopsExist(files, Walk(ids, a, b)) <==> Passable(files, ids, a, b)
  {
    var ns := Walk(ids, a, b);
    forall k | 0 <= k < |ns| ensures ns[k] == NodeAt(ids, a, b, k) {
      WalkNodes(ids, a, b, k);
    }
    if HopsExist(files, ns) {
      forall k | 0 <= k < |ns| - 1 ensures Leads(files, NodeAt(ids, a, b, k), NodeAt(ids, a, b, k + 1)) {
        assert Leads(files, ns[k + 1 - 1], ns[k + 1]);
      }
    }
    if Passable(files, ids, a, b) {
      forall k | 1 <= k < |ns| ensures Leads(files, ns[k - 1], ns[k]) {
        assert Leads(files, NodeAt(ids, a, b, k - 1), NodeAt(ids, a, b, k - 1 + 1));
      }
    }
  }

  lemma LastIsLast(ids: seq<string>, id: string, i: nat)
    ensures IsLast(ids, id, i) <==> i == LastIndex(ids, id)
  {
  }

  lemma {:induction false} FirstMatchAt(rules: seq<Rule>, from: string, to: string, i: nat, a: nat, b: nat)
    requires IsFirstMatch(rules, i, from, to) && IsLast(rules[i].ids, from, a) && IsLast(rules[i].ids, to, b)
    ensures FirstMatch(rules, from, to) == Some(Walk(rules[i].ids, a, b))
    decreases rules
  {
    MatchesExactly(rules[0], from, to);
    if i == 0 {
      LastIsLast(rules[0].ids, from, a);
      LastIsLast(rules[0].ids, to, b);
    } else {
      assert !HasBoth(rules[0], from, to);
      assert forall k :: 0 <= k < i - 1 ==> rules[1..][k] == rules[k + 1];
      FirstMatchAt(rules[1..], from, to, i - 1, a, b);
    }
  }

  /** Rule i is the one to take, its last `from` is at a and its last `to` at b, and every hop between has a point. */
  ghost predicate IsRoute(rules: seq<Rule>, files: Crossings, from: string, to: string, i: nat, a: nat, b: nat) {
    && IsFirstMatch(rules, i, from, to) && IsLast(rules[i].ids, from, a) && IsLast(rules[i].ids, to, b)
    && Passable(files, rules[i].ids, a, b)
  }

  lemma TakenRule(rules: seq<Rule>, from: string, to: string) returns (i: nat, a: nat, b: nat)
    requires FirstMatch(rules, from, to).Some?
    ensures IsFirstMatch(rules, i, from, to) && IsLast(rules[i].ids, from, a) && IsLast(rules[i].ids, to, b)
  {
    i := FirstMatchIsFirst(rules, from, to);
    a, b := LastIndex(rules[i].ids, from), LastIndex(rules[i].ids, to);
  }

  /** An expansion of an array succeeds exactly if there is a route, and a rule is taken exactly if one has both ends. */
  lemma RouteExistsExactly(rules: seq<Rule>, files: Crossings, from: string, to: string)
    ensures Expand(Rules(rules), files, from, to).Some?
            <==> exists i: nat, a: nat, b: nat :: IsRoute(rules, files, from, to, i, a, b)
    ensures FirstMatch(rules, from, to).Some? <==> exists i :: 0 <= i < |rules| && HasBoth(rules[i], from, to)
  {
    MatchExists(rules, from, to);
    if FirstMatch(rules, from, to).Some? {
      var i, a, b := TakenRule(rules, from, to);
      FirstMatchAt(rules, from, to, i, a, b);
      PointsExist(files, Walk(rules[i].ids, a, b));
      WalkPassable(files, rules[i].ids, a, b);
      assert Expand(Rules(rules), files, from, to).Some? ==> IsRoute(rules, files, from, to, i, a, b);
    }
    if i: nat, a: nat, b: nat :| IsRoute(rules, files, from, to, i, a, b) {
      FirstMatchAt(rules, from, to, i, a, b);
      PointsExist(files, Walk(rules[i].ids, a, b));
      WalkPassable(files, rules[i].ids, a, b);
    }
  }

  /** The points of a route are those of its hops, in order. */
  lemma RoutePoints(rules: seq<Rule>, files: Crossings, from: string, to: string, i: nat, a: nat, b: nat)
    requires IsRoute(rules, files, from, to, i, a, b)
    ensures Expand(Rules(rules), files, from, to).Some?
    ensures var ps, ids := Expand(Rules(rules), files, from, to).value, rules[i].ids;
            && |ps| == (if a <= b then b - a else a - b)
            && forall k :: 0 <= k < |ps| ==> LeadsBy(files, NodeAt(ids, a, b, k), NodeAt(ids, a, b, k + 1), ps[k])
  {
    var ns := Walk(rules[i].ids, a, b);
    FirstMatchAt(rules, from, to, i, a, b);
    PointsExist(files, ns);
    WalkPassable(files, rules[i].ids, a, b);
    PointsAreHops(files, ns);
    var ps := Expand(Rules(rules), files, from, to).value;
    forall k | 0 <= k < |ps|
      ensures LeadsBy(files, NodeAt(rules[i].ids, a, b, k), NodeAt(rules[i].ids, a, b, k + 1), ps[k])
    {
      WalkNodes(rules[i].ids, a, b, k);
      WalkNodes(rules[i].ids, a, b, k + 1);
      HopExactly(files, ns[k], ns[k + 1], ps[k]);
    }
  }

  /**
   A successful expansion of an array of rules is a chain of adjacent nodes of the first rule
   containing both ends, from the one to the other, with one point looked up for each hop.
   */
  lemma RouteSound(rules: seq<Rule>, files: Crossings, from: string, to: string) returns (i: nat, nodes: seq<string>)
    requires Expand(Rules(rules), files, from, to).Some?
    ensures IsFirstMatch(rules, i, from, to)
    ensures var ps := Expand(Rules(rules), files, from, to).value;
            var ids := rules[i].ids;
            var a, b := LastIndex(ids, from), LastIndex(ids, to);
            && |ps| == (if a < b then b - a else a - b)
            && |nodes| == |ps| + 1 && nodes[0] == from && nodes[|ps|] == to
            && (forall k :: 0 <= k < |ps| ==> Adjacent(ids, nodes[k], nodes[k + 1]))
            && (forall k :: 0 <= k < |ps| ==> LeadsBy(files, nodes[k], nodes[k + 1], ps[k]))
  {
    i := FirstMatchIsFirst(rules, from, to);
    nodes := FirstMatch(rules, from, to).value;
    PointsAreHops(files, nodes);
    WalkIsChain(rules[i].ids, LastIndex(rules[i].ids, from), LastIndex(rules[i].ids, to));
    var ps := Expand(Rules(rules), files, from, to).value;
    forall k | 0 <= k < |ps| ensures LeadsBy(files, nodes[k], nodes[k + 1], ps[k]) {
      HopExactly(files, nodes[k], nodes[k + 1], ps[k]);
    }
  }

  lemma ReverseTwice(s: seq<string>)
    ensures Reverse(Reverse(s)) == s
  {
  }

  lemma WalkBack(ids: seq<string>, from: nat, to: nat)
    requires from < |ids| && to < |ids|
    ensures Walk(ids, to, from) == Reverse(Walk(ids, from, to))
  {
    if from > to {
      ReverseTwice(ids[to..from + 1]);
    }
  }

  lemma {:induction false} NodesReverse(rules: seq<Rule>, from: string, to: string)
    ensures FirstMatch(rules, to, from)
            == match FirstMatch(rules, from, to)
               case None => None
               case Some(nodes) => Some(Reverse(nodes))
    decreases rules
  {
    if rules == [] {
    } else if Matches(rules[0], from, to) {
      var ids := rules[0].ids;
      IndexOfMember(ids, from);
      IndexOfMember(ids, to);
      WalkBack(ids, LastIndex(ids, from), LastIndex(ids, to));
    } else {
      NodesReverse(rules[1..], from, to);
    }
  }

  lemma RuleStays(rules: seq<Rule>, i: nat, from: string, to: string)
    requires IsFirstMatch(rules, i, from, to)
    ensures IsFirstMatch(rules, i, to, from)
  {
    forall k | 0 <= k < i ensures !HasBoth(rules[k], to, from) {
      assert !HasBoth(rules[k], from, to);
    }
  }

  /** Swapping the ends walks the same rule over the same nodes in reverse. */
  lemma RouteReverses(rules: seq<Rule>, from: string, to: string)
    ensures forall i :: IsFirstMatch(rules, i, to, from) <==> IsFirstMatch(rules, i, from, to)
    ensures FirstMatch(rules, to, from)
            == match FirstMatch(rules, from, to)
               case None => None
               case Some(nodes) => Some(Reverse(nodes))
  {
    NodesReverse(rules, from, to);
    forall i ensures IsFirstMatch(rules, i, to, from) <==> IsFirstMatch(rules, i, from, to) {
      if IsFirstMatch(rules, i, from, to) {
        RuleStays(rules, i, from, to);
      }
      if IsFirstMatch(rules, i, to, from) {
        RuleStays(rules, i, to, from);
      }
    }
  }
}
