/**
 * One refresh of the panel in painel/index.php: read the seven listings and
 * the queue, decide which agents to show, rank them and build their rows.
 */
module Panel {
  import opened Text
  import opened Listing
  import opened Queue
  import opened Agents
  import opened Universe
  import opened Ranking
  import opened Rows

  /**
   * What the store printed for the seven `database show` commands and the
   * value of `taxi/line`, each the empty string when the command failed.
   */
  datatype RawSnapshot = RawSnapshot(
    names: string,
    presentTs: string,
    presentBase: string,
    presentLoc: string,
    rideClient: string,
    rideTs: string,
    rideBase: string,
    line: string)

  /**
   * "CARREGA DADOS DO ASTDB": each of the seven maps stores what the lines
   * of its listing yield under its prefix, and `$linePos` indexes the last
   * queue piece of each agent.
   */
  function ReadSnapshot(raw: RawSnapshot): (snap: Snapshot)
    ensures CleanListing(snap.names) && CleanListing(snap.presentTs)
    ensures CleanListing(snap.presentBase) && CleanListing(snap.presentLoc)
    ensures CleanListing(snap.rideClient) && CleanListing(snap.rideTs) && CleanListing(snap.rideBase)
    ensures Stores("taxi/nome", raw.names, snap.names)
    ensures Stores("taxi/present_ts", raw.presentTs, snap.presentTs)
    ensures Stores("taxi/present_base", raw.presentBase, snap.presentBase)
    ensures Stores("taxi/present_loc", raw.presentLoc, snap.presentLoc)
    ensures Stores("taxi/corrida/ativa", raw.rideClient, snap.rideClient)
    ensures Stores("taxi/corrida/ts", raw.rideTs, snap.rideTs)
    ensures Stores("taxi/corrida/base", raw.rideBase, snap.rideBase)
    ensures forall a :: a in snap.linePos ==> IsDigits(a)
    ensures LastIndexOf(QueuePieces(raw.line), snap.linePos)
    ensures raw.line == "" ==> snap.linePos == map[]
  {
    Snapshot(
      names := ParseListing("taxi/nome", raw.names),
      presentTs := ParseListing("taxi/present_ts", raw.presentTs),
      presentBase := ParseListing("taxi/present_base", raw.presentBase),
      presentLoc := ParseListing("taxi/present_loc", raw.presentLoc),
      rideClient := ParseListing("taxi/corrida/ativa", raw.rideClient),
      rideTs := ParseListing("taxi/corrida/ts", raw.rideTs),
      rideBase := ParseListing("taxi/corrida/base", raw.rideBase),
      linePos := QueuePositions(raw.line))
  }

  /** A store that answered nothing: every listing and the queue empty. */
  const Silent := RawSnapshot("", "", "", "", "", "", "", "")

  const Empty := Snapshot(map[], map[], map[], map[], map[], map[], map[], map[])

  lemma SilentStoreIsEmpty()
    ensures ReadSnapshot(Silent) == Empty
  {
  }

  /**
   * The rows of one refresh: one per agent of the universe, each agent
   * once, in the comparator's order, so that idle agents come first, then
   * agents in a ride, then offline ones.
   */
  method BuildPanel(snap: Snapshot, roster: seq<string>) returns (rows: seq<Row>)
    ensures |rows| == |AgentSet(snap, roster)|
    ensures forall a :: a in AgentSet(snap, roster) <==> exists i :: 0 <= i < |rows| && rows[i].ag == a
    ensures forall i, j :: 0 <= i < j < |rows| ==> rows[i].ag != rows[j].ag
    ensures forall i :: 0 <= i < |rows| ==> rows[i] == BuildRow(snap, rows[i].ag)
    ensures forall i, j :: 0 <= i < j < |rows| ==> Compare(snap, rows[i].ag, rows[j].ag) <= 0
    ensures GroupsAscend(rows)
  {
    var agents := AgentSet(snap, roster);
    var ranked := Rank(snap, agents);
    rows := BuildRows(snap, ranked);
    RowsOfSortedAscend(snap, ranked);
    forall a | a in agents
      ensures exists i :: 0 <= i < |rows| && rows[i].ag == a
    {
      var i :| 0 <= i < |ranked| && ranked[i] == a;
      assert rows[i].ag == a;
    }
  }

  /**
   * With canonical ids (no leading zeros), no two agents share a numeric
   * value, so the sorted order is unique: usort gives the same table
   * whatever order it received the agents in.
   */
  lemma RankingIsUnique(snap: Snapshot, agents: set<string>, s: seq<string>, t: seq<string>)
    requires forall a :: a in agents ==> IsCanonical(a)
    requires multiset(s) == multiset(agents) && multiset(t) == multiset(agents)
    requires Sorted(snap, s) && Sorted(snap, t)
    ensures s == t
  {
    DistinctFromSet(s, agents);
    forall i, j | 0 <= i < j < |s|
      ensures IntOf(s[i]) != IntOf(s[j])
    {
      CanonicalValuesDistinct(s[i], s[j]);
    }
    SortedUnique(snap, s, t);
  }

  /**
   * A silent store (whose snapshot is `Empty`) with a roster shows every roster member, each offline,
   * in numeric order.
   */
  lemma SilentStoreWithRoster(roster: seq<string>, a: string, b: string)
    requires |roster| > 0
    requires a in roster && b in roster
    ensures a in AgentSet(Empty, roster)
    ensures Group(Classify(Empty, a)) == 2
    ensures Compare(Empty, a, b) == Spaceship(IntOf(a), IntOf(b))
  {
  }

  /** A silent store (whose snapshot is `Empty`) without a roster shows nobody. */
  lemma SilentStoreWithoutRoster()
    ensures AgentSet(Empty, []) == {}
  {
    forall a
      ensures a !in AgentSet(Empty, [])
    {
    }
  }
}
