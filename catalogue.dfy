/** The park table served by park-guesser/src/app/api/parks/route.js, as a
    fixture for the question builder. The image field holds the S3 object key
    in place of the presigned URL that the route derives from it. */
module Catalogue {
  import opened Shuffles
  import opened Parks

  /** The six parks of the table, in the table's order. */
  function NationalParks(): (parks: seq<Park>)
    ensures |parks| == 6
    ensures forall k :: 0 <= k < |parks| ==> parks[k].id == k + 1
  {
    [
      Park(1, "Arches National Park", "arches.jpg", "Utah"),
      Park(2, "Canyonlands National Park", "canyonlands.jpg", "Utah"),
      Park(3, "Denali National Park", "denali.jpg", "Alaska"),
      Park(4, "Glacier National Park", "glacier.jpg", "Montana"),
      Park(5, "Rocky Mountain National Park", "rocky-mountain.jpg", "Colorado"),
      Park(6, "Yosemite National Park", "yosemite.jpg", "California")
    ]
  }

  /** Over the served table, every question has four options with different
      ids, the answer among them exactly once. */
  lemma CatalogueQuestionsHaveFourDistinctOptions(pick: nat, wrongOrder: seq<nat>, optionOrder: seq<nat>)
    requires pick < |NationalParks()|
    ensures var q := GetRandomParkQuestion(NationalParks(), pick, wrongOrder, optionOrder);
            && |q.options| == 4
            && UniqueIds(q.options)
            && OccursOnceById(q.options, q.correctPark)
  {
    var parks := NationalParks();
    assert UniqueIds(parks);
    DistinctOptionsForUniqueIds(parks, pick, wrongOrder, optionOrder);
    OptionCountForUniqueIds(parks, pick, wrongOrder, optionOrder);
    CorrectParkOnceById(parks, pick, wrongOrder, optionOrder);
  }

  /** Six parks with ids 1 to 6, in that order. */
  ghost predicate SixParks(parks: seq<Park>)
  {
    && |parks| == 6
    && parks[0].id == 1 && parks[1].id == 2 && parks[2].id == 3
    && parks[3].id == 4 && parks[4].id == 5 && parks[5].id == 6
  }

  /** The filter for id 3 over six parks drops the third. */
  lemma ThirdOfSixOthers(parks: seq<Park>)
    requires SixParks(parks)
    ensures OtherParks(parks, 3) == [parks[0], parks[1], parks[3], parks[4], parks[5]]
  {
    assert parks == parks[..2] + [parks[2]] + parks[3..];
    OtherParksKeepsAll(parks[..2], 3);
    OtherParksKeepsAll(parks[3..], 3);
    OtherParksConcat(parks[..2], [parks[2]], 3);
    OtherParksConcat(parks[..2] + [parks[2]], parks[3..], 3);
  }

  /** Without draws, the wrong answers for id 3 are the first three others. */
  lemma ThirdOfSixWrongAnswers(parks: seq<Park>)
    requires SixParks(parks)
    ensures WrongAnswers(parks, 3, []) == [parks[0], parks[1], parks[3]]
  {
    var others := [parks[0], parks[1], parks[3], parks[4], parks[5]];
    ThirdOfSixOthers(parks);
    ShuffleWithoutDraws(others);
    TakeThreeOfFive(parks[0], parks[1], parks[3], parks[4], parks[5]);
  }

  /** A step on its own: it keeps the proofs about concrete sequences within
      the solver's budget. */
  lemma TakeThreeOfFive(a: Park, b: Park, c: Park, d: Park, e: Park)
    ensures Take([a, b, c, d, e], WrongAnswerLimit) == [a, b, c]
  {
  }

  /** A step on its own: it keeps the proofs about concrete sequences within
      the solver's budget. */
  lemma PrependToThree(x: Park, a: Park, b: Park, c: Park)
    ensures [x] + [a, b, c] == [x, a, b, c]
  {
  }

  /** A step on its own: it keeps the proofs about concrete sequences within
      the solver's budget. */
  lemma RemoveLastOfFour(a: Park, b: Park, c: Park, d: Park)
    ensures RemoveAt([a, b, c, d], 3) == [a, b, c]
  {
  }

  /** A single draw of 3 moves the last of four options to the front. */
  lemma DrawOfLast(a: Park, b: Park, c: Park, d: Park)
    ensures Shuffle([a, b, c, d], [3]) == [d, a, b, c]
  {
    ShuffleFirstDraw([a, b, c, d], [3]);
    assert [3][1..] == [];
    RemoveLastOfFour(a, b, c, d);
    ShuffleWithoutDraws([a, b, c]);
    PrependToThree(d, a, b, c);
  }

  /** With the third of six parks drawn and no reordering, the wrong answers
      are the first three other parks; one option draw of 3 puts the fourth
      park first among the options. */
  lemma ThirdOfSixQuestion(parks: seq<Park>)
    requires SixParks(parks)
    ensures GetRandomParkQuestion(parks, 2, [], []).options == [parks[2], parks[0], parks[1], parks[3]]
    ensures GetRandomParkQuestion(parks, 2, [], [3]).options == [parks[3], parks[2], parks[0], parks[1]]
  {
    ThirdOfSixWrongAnswers(parks);
    PrependToThree(parks[2], parks[0], parks[1], parks[3]);
    ShuffleWithoutDraws([parks[2], parks[0], parks[1], parks[3]]);
    DrawOfLast(parks[2], parks[0], parks[1], parks[3]);
  }

  /** Denali drawn from the served table, without and with a reordering of
      the options. */
  lemma DenaliQuestion()
    ensures var parks := NationalParks();
            && GetRandomParkQuestion(parks, 2, [], []).options == [parks[2], parks[0], parks[1], parks[3]]
            && GetRandomParkQuestion(parks, 2, [], [3]).options == [parks[3], parks[2], parks[0], parks[1]]
  {
    ThirdOfSixQuestion(NationalParks());
  }

  /** A one-park list yields a one-option question: the builder raises no
      error when too few wrong answers exist. */
  lemma SingleParkQuestion(park: Park, wrongOrder: seq<nat>, optionOrder: seq<nat>)
    ensures GetRandomParkQuestion([park], 0, wrongOrder, optionOrder) == Question(park, [park])
  {
    assert OtherParks([park], park.id) == [];
  }
}
