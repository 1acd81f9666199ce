/** Worked examples of the merged live view: two IPs of one service over two ticks. */
module FollowExamples {
  import opened Wrappers
  import opened Ls
  import opened LsFacts
  import opened Follow
  import opened FollowFacts

  const Tick1: seq<ServiceResponse> := [ServiceResponse("40%", "40%", "S"), ServiceResponse("60%", "60%", "S")]
  const Tick2: seq<ServiceResponse> := [ServiceResponse("80%", "80%", "S"), ServiceResponse("20%", "20%", "S")]

  lemma Tick1Readings()
    ensures ParsePair("40%", "40%") == Success((40, 40))
    ensures ParsePair("60%", "60%") == Success((60, 60))
  {
    ParsePercentOfText("40%", 40);
    ParsePercentOfText("60%", 60);
  }

  lemma Tick2Readings()
    ensures ParsePair("80%", "80%") == Success((80, 80))
    ensures ParsePair("20%", "20%") == Success((20, 20))
  {
    ParsePercentOfText("80%", 80);
    ParsePercentOfText("20%", 20);
  }

  /** A tick with samples 40% and 60% shows 50%. */
  lemma FirstTick()
    ensures MergedAverages(Tick1) == Success((50, 50))
  {
    Tick1Readings();
    TwoSampleAverages(Tick1[0], Tick1[1], 40, 40, 60, 60);
    assert Tick1 == [Tick1[0], Tick1[1]];
  }

  /** The next tick, with samples 80% and 20%, shows 50% again: the live average does not
      depend on earlier ticks (unlike the running average of the listing). */
  lemma SecondTick()
    ensures MergedAverages(Tick2) == Success((50, 50))
  {
    Tick2Readings();
    TwoSampleAverages(Tick2[0], Tick2[1], 80, 80, 20, 20);
    assert Tick2 == [Tick2[0], Tick2[1]];
  }
}
