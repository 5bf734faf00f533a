/**
 * Dispatch situations the ranking is meant to settle, each on a small
 * snapshot.
 */
module Scenarios {
  import opened Text
  import opened Agents
  import opened Ranking
  import opened Panel
  import opened Queue

  /** Two agents logged in at base and queued "41|42": the first in the queue leads. */
  lemma QueueOrderAtBase()
    ensures var snap := Empty.(
        presentTs := map["41" := "8", "42" := "7"],
        presentBase := map["41" := "40", "42" := "50"],
        linePos := QueuePositions("41|42"));
      Compare(snap, "41", "42") < 0
  {
    TwoAgentQueue();
    QueuedAtBase();
  }

  /** The same two agents with their queue positions written out. */
  lemma QueuedAtBase()
    ensures var snap := Empty.(
        presentTs := map["41" := "8", "42" := "7"],
        presentBase := map["41" := "40", "42" := "50"],
        linePos := map["41" := 0, "42" := 1]);
      Compare(snap, "41", "42") < 0
  {
    var snap := Empty.(
        presentTs := map["41" := "8", "42" := "7"],
        presentBase := map["41" := "40", "42" := "50"],
        linePos := map["41" := 0, "42" := 1]);
    assert IsDigits("8") && IsDigits("7");
    assert AtBase(Classify(snap, "41")) && AtBase(Classify(snap, "42"));
  }

  /** An agent at base leads one on the street who logged in earlier. */
  lemma BaseBeatsStreet()
    ensures var snap := Empty.(
        presentTs := map["10" := "1", "20" := "2"],
        presentBase := map["20" := "40"],
        presentLoc := map["10" := "rua"]);
      Compare(snap, "20", "10") < 0
  {
    var snap := Empty.(
        presentTs := map["10" := "1", "20" := "2"],
        presentBase := map["20" := "40"],
        presentLoc := map["10" := "rua"]);
    assert IsDigits("1") && IsDigits("2");
    assert AtBase(Classify(snap, "20")) && !AtBase(Classify(snap, "10"));
  }

  /** Of two agents in a ride, the one whose ride started first leads. */
  lemma EarlierRideLeads()
    ensures var snap := Empty.(
        presentTs := map["5" := "1", "6" := "1"],
        rideClient := map["5" := "client9", "6" := "client3"],
        rideTs := map["5" := "5", "6" := "3"]);
      Compare(snap, "6", "5") < 0
  {
    var snap := Empty.(
        presentTs := map["5" := "1", "6" := "1"],
        rideClient := map["5" := "client9", "6" := "client3"],
        rideTs := map["5" := "5", "6" := "3"]);
    assert IsDigits("1");
    assert DigitsValue("3") == 3 && DigitsValue("5") == 5;
    assert Group(Classify(snap, "5")) == 1 && Group(Classify(snap, "6")) == 1;
    RideOrder(snap, "6", "5");
  }
}
