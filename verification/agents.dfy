/**
 * One refresh's view of AstDB and what the ranking closure of
 * painel/index.php derives from it for a single agent.
 */
module Agents {
  import opened Text
  import opened Options

  /**
   * The seven listings read by db_show_prefix, each keyed by agent, and the
   * queue positions `$linePos`.
   */
  datatype Snapshot = Snapshot(
    names: map<string, string>,        // taxi/nome: display name
    presentTs: map<string, string>,    // taxi/present_ts: login epoch
    presentBase: map<string, string>,  // taxi/present_base: base code or extension
    presentLoc: map<string, string>,   // taxi/present_loc: "rua", "base", ...
    rideClient: map<string, string>,   // taxi/corrida/ativa: client of the active ride
    rideTs: map<string, string>,       // taxi/corrida/ts: ride start epoch
    rideBase: map<string, string>,     // taxi/corrida/base: base the ride came through
    linePos: map<string, nat>)         // taxi/line: queue index

  /** The values the closure computes for one agent (`$aLogged`, `$aInRide`, ...). */
  datatype AgentState = AgentState(
    logged: bool,
    inRide: bool,
    loc: string,
    base: string,
    loginTs: nat,
    rideTs: nat,
    pos: Option<nat>,
    id: nat)

  /** `$m[$k] ?? $fallback` on a map of strings. */
  function Get(m: map<string, string>, k: string, fallback: string): string
  {
    if k in m then m[k] else fallback
  }

  /** Logged in: a numeric `present_ts` entry. */
  predicate LoggedIn(snap: Snapshot, a: string)
  {
    a in snap.presentTs && IsDigits(snap.presentTs[a])
  }

  /** In a ride: a non-empty `corrida/ativa` entry, whatever the login state. */
  predicate InRide(snap: Snapshot, a: string)
  {
    a in snap.rideClient && snap.rideClient[a] != ""
  }

  /**
   * The per-agent values of the usort closure: `$aLogged`, `$aInRide`,
   * `$aLoc`, `$aBase`, `$aTs`, `$aRideTs`, `$linePos[$a]` and `(int)$a`.
   * Missing text reads as "", a missing stamp as `(int)0`.
   */
  function Classify(snap: Snapshot, a: string): (st: AgentState)
    ensures st.logged <==> LoggedIn(snap, a)
    ensures st.inRide <==> InRide(snap, a)
    ensures st.logged ==> st.loginTs == DigitsValue(snap.presentTs[a])
    ensures a in snap.presentLoc ==> st.loc == snap.presentLoc[a]
    ensures a !in snap.presentLoc ==> st.loc == ""
    ensures a in snap.presentBase ==> st.base == snap.presentBase[a]
    ensures a !in snap.presentBase ==> st.base == ""
    ensures st.id == IntOf(a)
    ensures st.pos.Some? <==> a in snap.linePos
    ensures a in snap.linePos ==> st.pos == Some(snap.linePos[a])
    ensures a in snap.presentTs ==> st.loginTs == IntOf(snap.presentTs[a])
    ensures a !in snap.presentTs ==> st.loginTs == 0
    ensures a in snap.rideTs ==> st.rideTs == IntOf(snap.rideTs[a])
    ensures a !in snap.rideTs ==> st.rideTs == 0
  {
    assert DigitsValue("0") == DigitsValue([]) * 10 + 0;
    AgentState(
      logged := LoggedIn(snap, a),
      inRide := InRide(snap, a),
      loc := Get(snap.presentLoc, a, ""),
      base := Get(snap.presentBase, a, ""),
      loginTs := IntOf(Get(snap.presentTs, a, "0")),
      rideTs := IntOf(Get(snap.rideTs, a, "0")),
      pos := if a in snap.linePos then Some(snap.linePos[a]) else None,
      id := IntOf(a))
  }

  /**
   * The main group of the closure: 0 logged in and idle, 1 logged in and in
   * a ride, 2 offline. A ride without a login counts as offline.
   */
  function Group(st: AgentState): (g: nat)
    ensures g <= 2
    ensures g == 0 <==> st.logged && !st.inRide
    ensures g == 1 <==> st.logged && st.inRide
    ensures g == 2 <==> !st.logged
  {
    if st.logged then (if st.inRide then 1 else 0) else 2
  }

  /**
   * preg_match('/^(40|50)$/', $base): "40" or "50", where `$` also accepts
   * one final LF.
   */
  predicate IsBaseCode(base: string)
  {
    base == "40" || base == "50" || base == "40\n" || base == "50\n"
  }

  /** For a trimmed value, which every listing value is, the pattern means exactly "40" or "50". */
  lemma BaseCodeOfTrimmed(base: string)
    requires IsTrimmed(base)
    ensures IsBaseCode(base) <==> base == "40" || base == "50"
  {
    if base == "40\n" || base == "50\n" {
      assert IsTrimChar(base[|base| - 1]);
    }
  }

  /** `$aIsBaseLogged`: logged in, not in a ride, not on the street, and at base 40 or 50. */
  predicate AtBase(st: AgentState)
  {
    st.logged && !st.inRide && st.loc != "rua" && IsBaseCode(st.base)
  }

  /**
   * An agent counts as at base exactly when it is logged in, has no active
   * ride, has no location or one other than "rua", and its present base is
   * 40 or 50.
   */
  lemma AtBaseOfSnapshot(snap: Snapshot, a: string)
    ensures AtBase(Classify(snap, a)) <==>
      && LoggedIn(snap, a)
      && !InRide(snap, a)
      && (a !in snap.presentLoc || snap.presentLoc[a] != "rua")
      && a in snap.presentBase && IsBaseCode(snap.presentBase[a])
  {
    var st := Classify(snap, a);
    if a !in snap.presentBase {
      assert !IsBaseCode(st.base);
    }
  }
}
