/** src/streaming/connections.rs: the edge list the browser editor sends is
    compiled into the ordered list of transform names that should run before
    the frame reaches the sink node "camera".  The compiler walks the edges
    backwards from the sink, always taking the FIRST edge (in vector order)
    into the current node, and stops when no edge leads into it. */
module Connections {
  import opened RustCore

  datatype Connection = Connection(source: string, target: string)

  /** The parsed control message `{"nodes": [...]}`. */
  datatype Connections = Connections(nodes: seq<Connection>)

  /** The reserved sink the backward walk starts from. */
  const LAST_TARGET: string := "camera"

  /** Index of the first connection whose target is `successor`, or
      `|connections|` when there is none. */
  function FirstInto(connections: seq<Connection>, successor: string): nat {
    if connections == [] then 0
    else if connections[0].target == successor then 0
    else 1 + FirstInto(connections[1..], successor)
  }

  lemma {:induction false} FirstIntoIsFirst(connections: seq<Connection>, successor: string)
    ensures FirstInto(connections, successor) <= |connections|
    ensures forall j :: 0 <= j < FirstInto(connections, successor) ==> connections[j].target != successor
    ensures FirstInto(connections, successor) < |connections| ==> connections[FirstInto(connections, successor)].target == successor
  {
    if connections != [] && connections[0].target != successor {
      FirstIntoIsFirst(connections[1..], successor);
    }
  }

  /** What `find_preceding` returns: the SOURCE of the first connection whose
      TARGET is `successor` (the comment above the Rust function has the two
      roles the other way round; the code is modelled). */
  function Preceding(connections: seq<Connection>, successor: string): Option<string> {
    var k := FirstInto(connections, successor);
    if k < |connections| then Some(connections[k].source) else None
  }

  /** `Preceding` finds the first matching connection, and nothing when no
      connection leads into `successor`. */
  lemma PrecedingIsFirstMatch(connections: seq<Connection>, successor: string)
    ensures Preceding(connections, successor).None? <==>
            forall j :: 0 <= j < |connections| ==> connections[j].target != successor
    ensures Preceding(connections, successor).Some? ==>
            exists j :: 0 <= j < |connections| && connections[j].target == successor &&
                        connections[j].source == Preceding(connections, successor).value &&
                        forall i :: 0 <= i < j ==> connections[i].target != successor
  {
    FirstIntoIsFirst(connections, successor);
  }

  /** `find_preceding`: a `for` loop over the connections with an early return. */
  method FindPreceding(connections: seq<Connection>, successor: string) returns (r: Option<string>)
    ensures r == Preceding(connections, successor)
  {
    FirstIntoIsFirst(connections, successor);
    for i := 0 to |connections|
      invariant forall j :: 0 <= j < i ==> connections[j].target != successor
    {
      if connections[i].target == successor {
        return Some(connections[i].source);
      }
    }
    return None;
  }

  /** The node the backward walk from the sink has reached after `k` steps
      (step 0 is the sink itself), or None once the walk has stopped. */
  function Walk(connections: seq<Connection>, k: nat): Option<string> {
    if k == 0 then Some(LAST_TARGET)
    else match Walk(connections, k - 1)
      case None => None
      case Some(node) => Preceding(connections, node)
  }

  /** The compiler's loop terminates on this input. */
  ghost predicate Stops(connections: seq<Connection>) {
    exists n: nat :: Walk(connections, n).None?
  }

  /** `Vec::reverse`. */
  function Reverse<T>(s: seq<T>): (r: seq<T>)
    ensures |r| == |s|
    ensures forall i :: 0 <= i < |s| ==> r[i] == s[|s| - 1 - i]
  {
    if s == [] then [] else Reverse(s[1..]) + [s[0]]
  }

  /** `convert_connections_to_process_chain`.  The Rust loop has no guard
      against cycles; it is modelled for the inputs on which it terminates,
      and the lemmas below say exactly which inputs those are. */
  method ConvertConnectionsToProcessChain(connections: seq<Connection>) returns (processChain: seq<string>)
    requires Stops(connections)
    // the chain is the backward walk, read upstream first, up to where it stopped
    ensures Walk(connections, |processChain| + 1).None?
    ensures forall j :: 0 <= j < |processChain| ==> Walk(connections, |processChain| - j) == Some(processChain[j])
    // the same, stated edge by edge
    ensures processChain == [] <==> Preceding(connections, LAST_TARGET).None?
    ensures processChain != [] ==> Preceding(connections, LAST_TARGET) == Some(processChain[|processChain| - 1])
    ensures forall i :: 0 <= i < |processChain| - 1 ==> Preceding(connections, processChain[i + 1]) == Some(processChain[i])
    ensures processChain != [] ==> Preceding(connections, processChain[0]).None?
    ensures forall i :: 0 <= i < |processChain| ==>
              exists j :: 0 <= j < |connections| && connections[j].source == processChain[i]
  {
    ghost var n: nat :| Walk(connections, n).None?;
    var successor := LAST_TARGET;
    var chain: seq<string> := [];
    while true
      invariant Walk(connections, |chain|) == Some(successor)
      invariant forall j :: 0 <= j < |chain| ==> Walk(connections, j + 1) == Some(chain[j])
      invariant |chain| < n
      invariant forall j :: 0 <= j < |chain| ==> exists e :: 0 <= e < |connections| && connections[e].source == chain[j]
      decreases n - |chain|
    {
      var preceding := FindPreceding(connections, successor);
      match preceding {
        case Some(p) =>
          WalkIsSource(connections, |chain| + 1);
          successor := p;
          chain := chain + [p];
        case None =>
          break;
      }
    }
    processChain := Reverse(chain);
    ChainEnds(connections, processChain);
    ChainLinks(connections, processChain);
  }

  /** The ends of a chain that is the backward walk, read upstream first:
      it is empty iff no edge leads into the camera, its last name feeds the
      camera and no edge leads into its first name. */
  lemma ChainEnds(connections: seq<Connection>, processChain: seq<string>)
    requires Walk(connections, |processChain| + 1).None?
    requires forall j :: 0 <= j < |processChain| ==> Walk(connections, |processChain| - j) == Some(processChain[j])
    ensures processChain == [] <==> Preceding(connections, LAST_TARGET).None?
    ensures processChain != [] ==> Preceding(connections, LAST_TARGET) == Some(processChain[|processChain| - 1])
    ensures processChain != [] ==> Preceding(connections, processChain[0]).None?
  {
    var m := |processChain|;
    WalkOne(connections);
    if m == 0 {
      assert Walk(connections, 1).None?;
    } else {
      assert Walk(connections, m - (m - 1)) == Some(processChain[m - 1]);
      assert Walk(connections, m - 0) == Some(processChain[0]);
    }
  }

  /** Each name of such a chain is the source of the first edge into the next. */
  lemma ChainLinks(connections: seq<Connection>, processChain: seq<string>)
    requires Walk(connections, |processChain| + 1).None?
    requires forall j :: 0 <= j < |processChain| ==> Walk(connections, |processChain| - j) == Some(processChain[j])
    ensures forall i :: 0 <= i < |processChain| - 1 ==> Preceding(connections, processChain[i + 1]) == Some(processChain[i])
  {
    var m := |processChain|;
    forall i | 0 <= i < m - 1
      ensures Preceding(connections, processChain[i + 1]) == Some(processChain[i])
    {
      assert Walk(connections, m - (i + 1)) == Some(processChain[i + 1]);
      assert Walk(connections, m - i) == Some(processChain[i]);
    }
  }

  /** Every node the walk reaches after leaving the sink is the source of an edge. */
  lemma WalkIsSource(connections: seq<Connection>, k: nat)
    requires k >= 1 && Walk(connections, k).Some?
    ensures exists j :: 0 <= j < |connections| && connections[j].source == Walk(connections, k).value
  {
    var node := Walk(connections, k - 1).value;
    FirstIntoIsFirst(connections, node);
    var f := FirstInto(connections, node);
    assert connections[f].source == Walk(connections, k).value;
  }

  /** The first step of the walk leaves the camera. */
  lemma WalkOne(connections: seq<Connection>)
    ensures Walk(connections, 1) == Preceding(connections, LAST_TARGET)
  {
  }

  /** The example written above the Rust function. */
  method DocumentedExample() returns (chain: seq<string>)
    ensures chain == ["1", "2", "3"]
  {
    var connections := [Connection("3", "camera"), Connection("2", "3"), Connection("1", "2")];
    assert Walk(connections, 1) == Some("3");
    assert Walk(connections, 2) == Some("2");
    assert Walk(connections, 3) == Some("1");
    assert Walk(connections, 4) == None;
    chain := ConvertConnectionsToProcessChain(connections);
    var m := |chain|;
    StoppedBefore(connections, m + 1, 3);
    StoppedBefore(connections, 4, m - 0);
    assert Walk(connections, 3 - 0) == Some(chain[0]);
    assert Walk(connections, 3 - 1) == Some(chain[1]);
    assert Walk(connections, 3 - 2) == Some(chain[2]);
  }

  /** Once the walk has stopped it stays stopped. */
  lemma {:induction false} WalkStaysStopped(connections: seq<Connection>, m: nat, n: nat)
    requires m <= n && Walk(connections, m).None?
    ensures Walk(connections, n).None?
  {
    if m < n {
      WalkStaysStopped(connections, m, n - 1);
    }
  }

  lemma StoppedBefore(connections: seq<Connection>, m: nat, n: nat)
    requires Walk(connections, m).None? && Walk(connections, n).Some?
    ensures n < m
  {
    if m <= n {
      WalkStaysStopped(connections, m, n);
    }
  }

  /** The walk is deterministic: two equal positions stay equal. */
  lemma {:induction false} WalkShift(connections: seq<Connection>, i: nat, j: nat, d: nat)
    requires Walk(connections, i) == Walk(connections, j)
    ensures Walk(connections, i + d) == Walk(connections, j + d)
  {
    if d > 0 {
      WalkShift(connections, i, j, d - 1);
      assert i + d - 1 == i + (d - 1) && j + d - 1 == j + (d - 1);
    }
  }

  /** If the backward walk ever revisits a node, the loop never terminates. */
  lemma {:induction false} RevisitNeverStops(connections: seq<Connection>, i: nat, j: nat)
    requires i < j && Walk(connections, j).Some? && Walk(connections, i) == Walk(connections, j)
    ensures forall n: nat :: Walk(connections, n).Some?
  {
    forall n: nat ensures Walk(connections, n).Some? {
      RevisitAt(connections, i, j, n);
    }
  }

  lemma {:induction false} RevisitAt(connections: seq<Connection>, i: nat, j: nat, n: nat)
    requires i < j && Walk(connections, j).Some? && Walk(connections, i) == Walk(connections, j)
    ensures Walk(connections, n).Some?
    decreases n
  {
    if n <= j {
      if Walk(connections, n).None? {
        WalkStaysStopped(connections, n, j);
      }
    } else {
      var p := n - (j - i);
      WalkShift(connections, i, j, n - j);
      assert i + (n - j) == p && j + (n - j) == n;
      RevisitAt(connections, i, j, p);
    }
  }

  /** An edge from the sink to itself makes the compiler loop forever. */
  lemma SinkSelfLoopNeverStops()
    ensures !Stops([Connection(LAST_TARGET, LAST_TARGET)])
  {
    var cs := [Connection(LAST_TARGET, LAST_TARGET)];
    assert Walk(cs, 1) == Some(LAST_TARGET);
    RevisitNeverStops(cs, 0, 1);
  }

  /** The nodes the walk reaches in steps 1 .. m are pairwise distinct. */
  ghost predicate DistinctUpTo(connections: seq<Connection>, m: nat) {
    && (forall k :: 1 <= k <= m ==> Walk(connections, k).Some?)
    && (forall a, b :: 1 <= a < b <= m ==> Walk(connections, a) != Walk(connections, b))
  }

  function Sources(connections: seq<Connection>): set<string> {
    set j | 0 <= j < |connections| :: connections[j].source
  }

  lemma {:induction false} SourcesBound(connections: seq<Connection>)
    ensures |Sources(connections)| <= |connections|
  {
    if connections != [] {
      var rest := connections[1..];
      SourcesBound(rest);
      assert Sources(connections) == Sources(rest) + {connections[0].source} by {
        forall s | s in Sources(connections) ensures s in Sources(rest) + {connections[0].source} {
          var j :| 0 <= j < |connections| && connections[j].source == s;
          if j > 0 { assert rest[j - 1].source == s; }
        }
      }
    }
  }

  ghost function Visited(connections: seq<Connection>, m: nat): set<string>
    requires forall k :: 1 <= k <= m ==> Walk(connections, k).Some?
  {
    set k | 1 <= k <= m :: Walk(connections, k).value
  }

  lemma {:induction false} VisitedSize(connections: seq<Connection>, m: nat)
    requires DistinctUpTo(connections, m)
    ensures |Visited(connections, m)| == m
  {
    if m > 0 {
      assert DistinctUpTo(connections, m - 1);
      VisitedSize(connections, m - 1);
      forall k | 1 <= k <= m - 1 ensures Walk(connections, k).value != Walk(connections, m).value {
        assert Walk(connections, k) != Walk(connections, m);
      }
      VisitedStep(connections, m);
    } else {
      assert Visited(connections, 0) == {};
    }
  }

  /** A new node visited at step `m` adds one to the visited set. */
  lemma VisitedStep(connections: seq<Connection>, m: nat)
    requires m > 0 && forall k :: 1 <= k <= m ==> Walk(connections, k).Some?
    requires |Visited(connections, m - 1)| == m - 1
    requires forall k :: 1 <= k <= m - 1 ==> Walk(connections, k).value != Walk(connections, m).value
    ensures |Visited(connections, m)| == m
  {
    var earlier, node := Visited(connections, m - 1), Walk(connections, m).value;
    assert Visited(connections, m) == earlier + {node};
    AddOneCard(earlier, node);
  }

  lemma AddOneCard(s: set<string>, x: string)
    requires x !in s
    ensures |s + {x}| == |s| + 1
  {
  }

  lemma VisitedSources(connections: seq<Connection>, m: nat)
    requires forall k :: 1 <= k <= m ==> Walk(connections, k).Some?
    ensures Visited(connections, m) <= Sources(connections)
  {
    forall x | x in Visited(connections, m) ensures x in Sources(connections) {
      var k :| 1 <= k <= m && Walk(connections, k).value == x;
      WalkIsSource(connections, k);
    }
  }

  /** When the nodes visited are distinct, their number is at most the number
      of edges, so the chain is no longer than the edge list. */
  lemma DistinctWalkBound(connections: seq<Connection>, m: nat)
    requires DistinctUpTo(connections, m)
    ensures m <= |connections|
  {
    VisitedSize(connections, m);
    VisitedSources(connections, m);
    SourcesBound(connections);
    assert |Visited(connections, m)| <= |Sources(connections)| by {
      SubsetSize(Visited(connections, m), Sources(connections));
    }
  }

  lemma SubsetSize(a: set<string>, b: set<string>)
    requires a <= b
    ensures |a| <= |b|
  {
    assert b == a + (b - a);
  }

  /** The loop terminates exactly when it terminates within `|connections| + 1`
      steps, that is, with a chain no longer than the edge list. */
  lemma StopsWithinEdges(connections: seq<Connection>)
    requires Stops(connections)
    ensures Walk(connections, |connections| + 1).None?
  {
    var m := |connections| + 1;
    if Walk(connections, m).Some? {
      forall k | 1 <= k <= m ensures Walk(connections, k).Some? {
        if Walk(connections, k).None? { WalkStaysStopped(connections, k, m); }
      }
      if DistinctUpTo(connections, m) {
        DistinctWalkBound(connections, m);
      } else {
        var a, b :| 1 <= a < b <= m && Walk(connections, a) == Walk(connections, b);
        RevisitNeverStops(connections, a, b);
        assert false;
      }
    }
  }
}
