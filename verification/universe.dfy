/**
 * The set of agents the panel shows (painel/index.php, "LISTA DE AGENTES"):
 * a configured roster when one is given, otherwise every agent id seen as
 * a key of any of the seven listings.
 */
module Universe {
  import opened Text
  import opened Agents

  /** The seven listings in the order the source walks them. */
  function Tables(snap: Snapshot): (tables: seq<map<string, string>>)
    ensures |tables| == 7
  {
    [snap.names, snap.presentTs, snap.presentBase, snap.presentLoc,
     snap.rideClient, snap.rideTs, snap.rideBase]
  }

  /** `a` is the digits of some key of table `t`. */
  predicate SeenIn(tables: seq<map<string, string>>, t: int, a: string)
  {
    0 <= t < |tables| && exists k :: k in tables[t] && StripNonDigits(k) == a
  }

  /** The digits of the keys of one table, empty results dropped. */
  function KeyDigits(table: map<string, string>): (ids: set<string>)
    ensures forall a :: a in ids <==> a != "" && exists k :: k in table && StripNonDigits(k) == a
  {
    set k | k in table && StripNonDigits(k) != "" :: StripNonDigits(k)
  }

  /**
   * The nested foreach over every table and key: an id is collected exactly
   * when it is the non-empty digits of a key of some table.
   */
  function Discovered(tables: seq<map<string, string>>): (ids: set<string>)
    ensures forall a :: a in ids <==> a != "" && exists t :: SeenIn(tables, t, a)
    decreases |tables|
  {
    if |tables| == 0 then {}
    else
      var last := |tables| - 1;
      var init := tables[..last];
      var ids := Discovered(init) + KeyDigits(tables[last]);
      forall a
        ensures a in ids <==> a != "" && exists t :: SeenIn(tables, t, a)
      {
        if a in Discovered(init) {
          var t :| SeenIn(init, t, a);
          assert SeenIn(tables, t, a);
        }
        if a in KeyDigits(tables[last]) {
          assert SeenIn(tables, last, a);
        }
        if a != "" && exists t :: SeenIn(tables, t, a) {
          var t :| SeenIn(tables, t, a);
          if t < last {
            assert SeenIn(init, t, a);
          } else {
            assert a in KeyDigits(tables[last]);
          }
        }
      }
      ids
  }

  /**
   * `$agents` before sorting: the roster verbatim when it is non-empty;
   * otherwise the non-empty digit-only ids found among the listing keys.
   * Either way each agent is present once.
   */
  function AgentSet(snap: Snapshot, roster: seq<string>): (agents: set<string>)
    ensures |roster| > 0 ==> forall a :: a in agents <==> a in roster
    ensures |roster| == 0 ==> forall a :: a in agents <==> a != "" && exists t :: SeenIn(Tables(snap), t, a)
    ensures |roster| == 0 ==> forall a :: a in agents ==> IsDigits(a)
  {
    if |roster| > 0 then set a | a in roster
    else
      var ids := Discovered(Tables(snap));
      forall a | a in ids
        ensures IsDigits(a)
      {
        var t :| SeenIn(Tables(snap), t, a);
      }
      ids
  }
}
