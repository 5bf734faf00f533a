/**
 * The table rows of painel/index.php ("MONTA LINHAS"), the status shown
 * for each row and the three counters above the table.
 */
module Rows {
  import opened Text
  import opened Options
  import opened Agents
  import opened Ranking

  /** One entry of `$rows`. */
  datatype Row = Row(
    ag: string,
    name: string,
    logged: bool,
    loc: string,
    base: string,
    loginTs: nat,
    inRide: bool,
    client: string,
    rideTs: nat,
    rideBase: string,
    pos: Option<nat>)

  /**
   * The row for agent `ag`: the timestamps of a state the agent is not in
   * read as 0, and missing text fields fall back to placeholders.
   */
  function BuildRow(snap: Snapshot, ag: string): (row: Row)
    ensures row.ag == ag
    ensures row.logged <==> LoggedIn(snap, ag)
    ensures row.inRide <==> InRide(snap, ag)
    ensures !row.logged ==> row.loginTs == 0
    ensures row.logged ==> row.loginTs == DigitsValue(snap.presentTs[ag])
    ensures !row.inRide ==> row.rideTs == 0 && row.rideBase == "-"
    ensures row.inRide && ag in snap.rideTs ==> row.rideTs == IntOf(snap.rideTs[ag])
    ensures row.inRide && ag !in snap.rideTs ==> row.rideTs == 0
    ensures row.inRide ==> row.rideBase == (if ag in snap.rideBase then snap.rideBase[ag] else "-")
    ensures row.pos.Some? ==> ag in snap.linePos && row.pos.value == snap.linePos[ag]
    ensures row.pos.Some? <==> ag in snap.linePos
    ensures row.inRide <==> row.client != ""
    ensures row.inRide ==> row.client == snap.rideClient[ag]
    ensures ag in snap.names ==> row.name == snap.names[ag]
    ensures ag !in snap.names ==> row.name == "Agente " + ag
    ensures ag !in snap.presentLoc ==> row.loc == (if row.logged then "base" else "-")
    ensures ag in snap.presentLoc ==> row.loc == snap.presentLoc[ag]
    ensures row.base == (if ag in snap.presentBase then snap.presentBase[ag] else "-")
  {
    var logged := LoggedIn(snap, ag);
    var inRide := InRide(snap, ag);
    assert DigitsValue("0") == DigitsValue([]) * 10 + 0;
    Row(
      ag := ag,
      name := Get(snap.names, ag, "Agente " + ag),
      logged := logged,
      loc := Get(snap.presentLoc, ag, if logged then "base" else "-"),
      base := Get(snap.presentBase, ag, "-"),
      loginTs := if logged then IntOf(snap.presentTs[ag]) else 0,
      inRide := inRide,
      client := if inRide then snap.rideClient[ag] else "",
      rideTs := if inRide then IntOf(Get(snap.rideTs, ag, "0")) else 0,
      rideBase := if inRide then Get(snap.rideBase, ag, "-") else "-",
      pos := if ag in snap.linePos then Some(snap.linePos[ag]) else None)
  }

  /**
   * The login, ride and queue fields of a row are the ones the comparator
   * ranked the agent by.
   */
  lemma RowMatchesRanking(snap: Snapshot, ag: string)
    ensures var row, st := BuildRow(snap, ag), Classify(snap, ag);
      row.logged == st.logged && row.inRide == st.inRide && row.pos == st.pos
      && (row.logged ==> row.loginTs == st.loginTs)
      && (row.inRide ==> row.rideTs == st.rideTs)
  {
  }

  /** The foreach over the ranked agents: one row each, in the same order. */
  function BuildRows(snap: Snapshot, ranked: seq<string>): (rows: seq<Row>)
    ensures |rows| == |ranked|
    ensures forall i :: 0 <= i < |ranked| ==> rows[i] == BuildRow(snap, ranked[i])
  {
    seq(|ranked|, i requires 0 <= i < |ranked| => BuildRow(snap, ranked[i]))
  }

  /** The group a row's flags put it in, as in the comparator. */
  function RowGroup(row: Row): nat
  {
    if row.logged then (if row.inRide then 1 else 0) else 2
  }

  /** A row's flags put it in the group the comparator ranked its agent by. */
  lemma RowGroupMatches(snap: Snapshot, ag: string)
    ensures RowGroup(BuildRow(snap, ag)) == Group(Classify(snap, ag))
  {
  }

  /** Groups never decrease down the table. */
  predicate GroupsAscend(rows: seq<Row>)
  {
    forall i, j :: 0 <= i < j < |rows| ==> RowGroup(rows[i]) <= RowGroup(rows[j])
  }

  /**
   * Rows built from a sorted ranking list the idle logged-in agents first,
   * then those in a ride, then the offline ones.
   */
  lemma RowsOfSortedAscend(snap: Snapshot, ranked: seq<string>)
    requires Sorted(snap, ranked)
    ensures GroupsAscend(BuildRows(snap, ranked))
  {
    var rows := BuildRows(snap, ranked);
    forall i, j | 0 <= i < j < |rows|
      ensures RowGroup(rows[i]) <= RowGroup(rows[j])
    {
      GroupsInOrder(snap, ranked[i], ranked[j]);
      RowGroupMatches(snap, ranked[i]);
      RowGroupMatches(snap, ranked[j]);
    }
  }

  /** The status pill: a ride wins over a login, a login over nothing. */
  datatype Status = EmCorrida | Online | Encerrado

  function StatusOf(row: Row): (st: Status)
    ensures st == EmCorrida <==> row.inRide
    ensures st == Online <==> row.logged && !row.inRide
    ensures st == Encerrado <==> !row.logged && !row.inRide
  {
    if row.inRide then EmCorrida else if row.logged then Online else Encerrado
  }

  /**
   * For a logged-in agent the pill names the group the agent was ranked in;
   * an offline agent with an active ride is ranked with the offline agents
   * yet shown as in a ride.
   */
  lemma StatusAndGroup(row: Row)
    ensures StatusOf(row) == Online <==> RowGroup(row) == 0
    ensures row.logged ==> (StatusOf(row) == EmCorrida <==> RowGroup(row) == 1)
    ensures StatusOf(row) == Encerrado ==> RowGroup(row) == 2
    ensures RowGroup(row) == 2 ==> (StatusOf(row) == EmCorrida <==> row.inRide)
  {
  }

  /** The counters "Logados", "Em corrida" and "Offline". */
  datatype Counts = Counts(logged: nat, inRide: nat, offline: nat)

  /** The login flag of every row, in table order. */
  function LoginFlags(rows: seq<Row>): (flags: seq<bool>)
    ensures |flags| == |rows|
    ensures forall i :: 0 <= i < |rows| ==> flags[i] == rows[i].logged
  {
    seq(|rows|, i requires 0 <= i < |rows| => rows[i].logged)
  }

  /** The ride flag of every row, in table order. */
  function RideFlags(rows: seq<Row>): (flags: seq<bool>)
    ensures |flags| == |rows|
    ensures forall i :: 0 <= i < |rows| ==> flags[i] == rows[i].inRide
  {
    seq(|rows|, i requires 0 <= i < |rows| => rows[i].inRide)
  }

  /** The login flags of a table are the first row's followed by the rest's. */
  lemma LoginFlagsUnfold(rows: seq<Row>)
    requires |rows| > 0
    ensures multiset(LoginFlags(rows)) == multiset{rows[0].logged} + multiset(LoginFlags(rows[1..]))
  {
    var f, g := LoginFlags(rows), LoginFlags(rows[1..]);
    assert f[1..] == g;
    assert f == [f[0]] + f[1..];
  }

  /** The ride flags of a table are the first row's followed by the rest's. */
  lemma RideFlagsUnfold(rows: seq<Row>)
    requires |rows| > 0
    ensures multiset(RideFlags(rows)) == multiset{rows[0].inRide} + multiset(RideFlags(rows[1..]))
  {
    var f, g := RideFlags(rows), RideFlags(rows[1..]);
    assert f[1..] == g;
    assert f == [f[0]] + f[1..];
  }

  /**
   * The loop over `$rows`: "Logados" counts the logged-in rows, "Offline"
   * the others, and "Em corrida" the rows in a ride, logged in or not.
   */
  function CountRows(rows: seq<Row>): (c: Counts)
    ensures c.logged == multiset(LoginFlags(rows))[true]
    ensures c.offline == multiset(LoginFlags(rows))[false]
    ensures c.inRide == multiset(RideFlags(rows))[true]
    ensures c.logged + c.offline == |rows|
  {
    if |rows| == 0 then Counts(0, 0, 0)
    else
      var c := CountRows(rows[1..]);
      var r := rows[0];
      LoginFlagsUnfold(rows);
      RideFlagsUnfold(rows);
      assert |multiset(LoginFlags(rows))| == |rows|;
      Counts(
        if r.logged then c.logged + 1 else c.logged,
        if r.inRide then c.inRide + 1 else c.inRide,
        if r.logged then c.offline else c.offline + 1)
  }

  /**
   * In a table whose groups ascend, the logged-in agents are exactly the
   * first "Logados" rows.
   */
  lemma {:induction false} LoggedArePrefix(rows: seq<Row>)
    requires GroupsAscend(rows)
    ensures forall i :: 0 <= i < |rows| ==> (rows[i].logged <==> i < CountRows(rows).logged)
  {
    if |rows| > 0 {
      var tail := rows[1..];
      assert GroupsAscend(tail) by {
        forall i, j | 0 <= i < j < |tail|
          ensures RowGroup(tail[i]) <= RowGroup(tail[j])
        {
          assert tail[i] == rows[i + 1] && tail[j] == rows[j + 1];
        }
      }
      LoggedArePrefix(tail);
      forall i | 0 <= i < |rows|
        ensures rows[i].logged <==> i < CountRows(rows).logged
      {
        if i > 0 {
          assert rows[i] == tail[i - 1];
          if !rows[0].logged {
            assert RowGroup(rows[0]) <= RowGroup(rows[i]);
          }
        }
      }
    }
  }

  /** The counters of the whole panel: built rows of a sorted ranking. */
  lemma CountsOfPanel(snap: Snapshot, ranked: seq<string>)
    requires Sorted(snap, ranked)
    ensures var rows := BuildRows(snap, ranked);
      forall i :: 0 <= i < |rows| ==> (LoggedIn(snap, ranked[i]) <==> i < CountRows(rows).logged)
  {
    RowsOfSortedAscend(snap, ranked);
    LoggedArePrefix(BuildRows(snap, ranked));
  }
}
