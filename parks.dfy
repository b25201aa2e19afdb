/** The multiple-choice question builder `getRandomParkQuestion` of
    park-guesser/src/app/data/parks.js.

    The builder draws one park as the answer, keeps up to three parks with a
    different id as wrong answers, and shuffles the answer in among them.
    Its three random choices are inputs here: `pick` is the index that
    `Math.floor(Math.random() * nationalParks.length)` yields, and
    `wrongOrder` and `optionOrder` are the draws that decide the order left by
    each `sort(() => Math.random() - 0.5)` (see module Shuffles). */
module Parks {
  import opened Shuffles

  /** One national park as the parks API delivers it. The builder reads only
      `id`; `image` stands for the presigned image URL. */
  datatype Park = Park(id: int, name: string, image: string, state: string)

  /** The result of the builder. `NoPark` is what it returns for an empty
      list, where JavaScript gives {correctPark: undefined, options: [undefined]}:
      nothing checks the input, and `filter` over an empty array never reads
      `correctPark.id`. */
  datatype Question =
    | Question(correctPark: Park, options: seq<Park>)
    | NoPark

  /** How many wrong answers the builder keeps at most (`slice(0, 3)`). */
  const WrongAnswerLimit: nat := 3

  /** The parks whose id is not `id`, in their original order: the `filter`
      of the builder. */
  function OtherParks(parks: seq<Park>, id: int): (r: seq<Park>)
    ensures |r| <= |parks|
    ensures forall k :: 0 <= k < |r| ==> r[k].id != id
    decreases |parks|
  {
    if parks == [] then []
    else
      var n := |parks| - 1;
      OtherParks(parks[..n], id) + (if parks[n].id != id then [parks[n]] else [])
  }

  /** The filter keeps each park with another id as often as the list holds
      it, and drops every park with id `id`. */
  lemma {:induction false} OtherParksMultiplicity(parks: seq<Park>, id: int)
    ensures forall p :: multiset(OtherParks(parks, id))[p] == if p.id != id then multiset(parks)[p] else 0
    decreases |parks|
  {
    if parks != [] {
      var n := |parks| - 1;
      OtherParksMultiplicity(parks[..n], id);
      assert parks == parks[..n] + [parks[n]];
      assert multiset(parks) == multiset(parks[..n]) + multiset{parks[n]};
    }
  }

  /** Filtering a concatenation filters each part. */
  lemma {:induction false} OtherParksConcat(front: seq<Park>, back: seq<Park>, id: int)
    ensures OtherParks(front + back, id) == OtherParks(front, id) + OtherParks(back, id)
    decreases |back|
  {
    if back == [] {
      assert front + back == front;
    } else {
      var n := |back| - 1;
      var last := if back[n].id != id then [back[n]] else [];
      OtherParksConcat(front, back[..n], id);
      assert (front + back)[..|front| + n] == front + back[..n];
      assert (front + back)[|front| + n] == back[n];
      assert OtherParks(back, id) == OtherParks(back[..n], id) + last;
      assert OtherParks(front + back, id) == OtherParks(front + back[..n], id) + last;
    }
  }

  /** The positions of `parks` that hold a park whose id is not `id`. */
  ghost function DifferentIdPositions(parks: seq<Park>, id: int): (r: set<int>)
  {
    set i | 0 <= i < |parks| && parks[i].id != id
  }

  /** Appending a park adds its position when its id differs. */
  lemma DifferentIdPositionsOfLast(parks: seq<Park>, id: int)
    requires parks != []
    ensures var n := |parks| - 1;
            DifferentIdPositions(parks, id)
            == DifferentIdPositions(parks[..n], id) + (if parks[n].id != id then {n} else {})
  {
    var n := |parks| - 1;
    forall i | 0 <= i < n
      ensures parks[..n][i] == parks[i]
    {
    }
  }

  /** The filter keeps one park per position whose id differs. */
  lemma {:induction false} OtherParksCountsDifferentIds(parks: seq<Park>, id: int)
    ensures |OtherParks(parks, id)| == |DifferentIdPositions(parks, id)|
    decreases |parks|
  {
    if parks != [] {
      var n := |parks| - 1;
      OtherParksCountsDifferentIds(parks[..n], id);
      DifferentIdPositionsOfLast(parks, id);
      assert n !in DifferentIdPositions(parks[..n], id);
    }
  }

  /** The wrong answers: the other parks, shuffled, cut to at most three
      (lines 24-27). */
  function WrongAnswers(parks: seq<Park>, id: int, wrongOrder: seq<nat>): (w: seq<Park>)
    ensures |w| == Min(WrongAnswerLimit, |OtherParks(parks, id)|)
    ensures multiset(w) <= multiset(OtherParks(parks, id))
    ensures forall p :: p in w ==> p in parks && p.id != id
  {
    var others := OtherParks(parks, id);
    OtherParksMultiplicity(parks, id);
    ShufflePermutes(others, wrongOrder);
    var w := Take(Shuffle(others, wrongOrder), WrongAnswerLimit);
    assert forall p :: p in w ==> p in multiset(others);
    w
  }

  /** There are as many wrong answers as three or the number of positions
      holding another id, whichever is fewer; never more than three. */
  lemma WrongAnswerCount(parks: seq<Park>, id: int, wrongOrder: seq<nat>)
    ensures |WrongAnswers(parks, id, wrongOrder)| == Min(WrongAnswerLimit, |DifferentIdPositions(parks, id)|)
    ensures |WrongAnswers(parks, id, wrongOrder)| <= WrongAnswerLimit
  {
    OtherParksCountsDifferentIds(parks, id);
  }

  /** getRandomParkQuestion: the park at `pick` is the answer, and the options
      are that park and the wrong answers, shuffled together (lines 20-37). */
  function GetRandomParkQuestion(parks: seq<Park>, pick: nat, wrongOrder: seq<nat>, optionOrder: seq<nat>): (q: Question)
    requires parks != [] ==> pick < |parks|
    ensures q.NoPark? <==> parks == []
    ensures parks != [] ==> q.correctPark == parks[pick]
    ensures q.Question? ==>
              multiset(q.options) == multiset([q.correctPark] + WrongAnswers(parks, q.correctPark.id, wrongOrder))
  {
    if parks == [] then NoPark
    else
      var correctPark := parks[pick];
      var wrongAnswers := WrongAnswers(parks, correctPark.id, wrongOrder);
      ShufflePermutes([correctPark] + wrongAnswers, optionOrder);
      Question(correctPark, Shuffle([correctPark] + wrongAnswers, optionOrder))
  }

  /** The questions the builder can return for `parks`, stated without its
      random choices: the answer is a park of the list and occurs once among
      the options; every other option has another id and is drawn without
      replacement from the list; and there are as many wrong answers as three
      or the number of positions holding another id, whichever is fewer. */
  ghost predicate PossibleQuestion(parks: seq<Park>, q: Question)
  {
    && q.Question?
    && q.correctPark in parks
    && multiset(q.options)[q.correctPark] == 1
    && (forall p :: p in q.options && p != q.correctPark ==>
          p.id != q.correctPark.id && multiset(q.options)[p] <= multiset(parks)[p])
    && |q.options| == 1 + Min(WrongAnswerLimit, |DifferentIdPositions(parks, q.correctPark.id)|)
  }

  /** Options made of `c` and wrong answers drawn from the parks with
      another id hold `c` once, and every other option comes from `parks`
      with another id. */
  lemma OptionsFromWrongAnswers(parks: seq<Park>, c: Park, w: seq<Park>, options: seq<Park>)
    requires forall p :: multiset(w)[p] <= if p.id != c.id then multiset(parks)[p] else 0
    requires multiset(options) == multiset{c} + multiset(w)
    ensures multiset(options)[c] == 1
    ensures forall p :: p in options && p != c ==> p.id != c.id && multiset(options)[p] <= multiset(parks)[p]
  {
    assert multiset(w)[c] == 0;
    forall p | p in options && p != c
      ensures p.id != c.id && multiset(options)[p] <= multiset(parks)[p]
    {
      assert multiset(options)[p] == multiset(w)[p];
    }
  }

  /** Every question the builder returns for a non-empty list is possible. */
  lemma QuestionIsPossible(parks: seq<Park>, pick: nat, wrongOrder: seq<nat>, optionOrder: seq<nat>)
    requires pick < |parks|
    ensures PossibleQuestion(parks, GetRandomParkQuestion(parks, pick, wrongOrder, optionOrder))
  {
    var q := GetRandomParkQuestion(parks, pick, wrongOrder, optionOrder);
    var c := parks[pick];
    var w := WrongAnswers(parks, c.id, wrongOrder);
    OtherParksMultiplicity(parks, c.id);
    OptionsFromWrongAnswers(parks, c, w, q.options);
    OtherParksCountsDifferentIds(parks, c.id);
  }

  /** The options of a possible question without its answer: wrong answers
      drawn from the parks with another id. */
  lemma WrongPartOfOptions(parks: seq<Park>, c: Park, options: seq<Park>) returns (w: seq<Park>)
    requires multiset(options)[c] == 1
    requires forall p :: p in options && p != c ==> p.id != c.id && multiset(options)[p] <= multiset(parks)[p]
    ensures multiset(options) == multiset{c} + multiset(w)
    ensures |w| + 1 == |options|
    ensures forall p :: multiset(w)[p] <= if p.id != c.id then multiset(parks)[p] else 0
  {
    assert c in options;
    w := RemoveAt(options, IndexOf(options, c));
    forall p ensures multiset(w)[p] <= if p.id != c.id then multiset(parks)[p] else 0 {
      if p != c && multiset(w)[p] > 0 {
        assert p in multiset(options);
      }
    }
  }

  /** Every sequence of at most three other parks, drawn without replacement,
      is the wrong answers for some draws. */
  lemma EveryWrongAnswersDrawn(parks: seq<Park>, id: int, w: seq<Park>) returns (wrongOrder: seq<nat>)
    requires multiset(w) <= multiset(OtherParks(parks, id))
    requires |w| == Min(WrongAnswerLimit, |OtherParks(parks, id)|)
    ensures WrongAnswers(parks, id, wrongOrder) == w
  {
    var others := OtherParks(parks, id);
    var rest := Without(others, w);
    WithoutCompletes(others, w);
    wrongOrder := DrawsFor(others, w + rest);
    ShuffleReachesEveryOrder(others, w + rest);
    TakePrefix(w, rest, WrongAnswerLimit);
  }

  /** Every possible question is the builder's result for some random
      choices: together with QuestionIsPossible, PossibleQuestion describes
      exactly what the builder can return. */
  lemma EveryPossibleQuestionIsBuilt(parks: seq<Park>, q: Question)
    requires PossibleQuestion(parks, q)
    ensures exists pick: nat, wrongOrder: seq<nat>, optionOrder: seq<nat> | pick < |parks| ::
              GetRandomParkQuestion(parks, pick, wrongOrder, optionOrder) == q
  {
    var c := q.correctPark;
    var pick := IndexOf(parks, c);
    var w := WrongPartOfOptions(parks, c, q.options);
    OtherParksCountsDifferentIds(parks, c.id);
    OtherParksMultiplicity(parks, c.id);
    var wrongOrder := EveryWrongAnswersDrawn(parks, c.id, w);
    var optionOrder := DrawsFor([c] + w, q.options);
    ShuffleReachesEveryOrder([c] + w, q.options);
    assert GetRandomParkQuestion(parks, pick, wrongOrder, optionOrder) == q;
  }

  /** The answer is among the options, and there are between one and four
      of them: one more than the wrong answers. */
  lemma OptionCount(parks: seq<Park>, pick: nat, wrongOrder: seq<nat>, optionOrder: seq<nat>)
    requires pick < |parks|
    ensures var q := GetRandomParkQuestion(parks, pick, wrongOrder, optionOrder);
            && q.correctPark in q.options
            && |q.options| == 1 + |WrongAnswers(parks, parks[pick].id, wrongOrder)|
            && 1 <= |q.options| <= 1 + WrongAnswerLimit
  {
    var q := GetRandomParkQuestion(parks, pick, wrongOrder, optionOrder);
    assert q.correctPark in multiset(q.options);
  }

  /** `x` is in `s`, and no other position of `s` holds a park with its id. */
  ghost predicate OccursOnceById(s: seq<Park>, x: Park)
  {
    exists i :: 0 <= i < |s| && s[i] == x && forall j :: 0 <= j < |s| && j != i ==> s[j].id != x.id
  }

  /** A park that occurs once, beside parks that all have other ids, occurs
      once by id. */
  lemma OnceAmongOtherIds(options: seq<Park>, c: Park)
    requires multiset(options)[c] == 1
    requires forall p :: p in options && p != c ==> p.id != c.id
    ensures OccursOnceById(options, c)
  {
    assert c in options;
    var i := IndexOf(options, c);
    forall j | 0 <= j < |options| && j != i
      ensures options[j].id != c.id
    {
      if options[j] == c {
        TwoPositionsTwice(options, i, j);
      }
    }
  }

  /** The answer occurs exactly once among the options, judged by id: every
      other option passed the filter on a different id (lines 25 and 30). */
  lemma CorrectParkOnceById(parks: seq<Park>, pick: nat, wrongOrder: seq<nat>, optionOrder: seq<nat>)
    requires pick < |parks|
    ensures OccursOnceById(GetRandomParkQuestion(parks, pick, wrongOrder, optionOrder).options, parks[pick])
  {
    var q := GetRandomParkQuestion(parks, pick, wrongOrder, optionOrder);
    QuestionIsPossible(parks, pick, wrongOrder, optionOrder);
    OnceAmongOtherIds(q.options, parks[pick]);
  }

  /** No two parks of `parks` share an id. */
  ghost predicate UniqueIds(parks: seq<Park>)
  {
    forall i, j :: 0 <= i < j < |parks| ==> parks[i].id != parks[j].id
  }

  /** The filter keeps every park when none has id `id`. */
  lemma {:induction false} OtherParksKeepsAll(parks: seq<Park>, id: int)
    requires forall i :: 0 <= i < |parks| ==> parks[i].id != id
    ensures OtherParks(parks, id) == parks
    decreases |parks|
  {
    if parks != [] {
      var n := |parks| - 1;
      OtherParksKeepsAll(parks[..n], id);
      assert parks == parks[..n] + [parks[n]];
    }
  }

  /** With unique ids the filter drops exactly the answer. */
  lemma {:induction false} OtherParksOfUniqueIds(parks: seq<Park>, pick: nat)
    requires UniqueIds(parks) && pick < |parks|
    ensures |OtherParks(parks, parks[pick].id)| == |parks| - 1
    decreases |parks|
  {
    var n := |parks| - 1;
    var id := parks[pick].id;
    if pick == n {
      OtherParksKeepsAll(parks[..n], id);
    } else {
      OtherParksOfUniqueIds(parks[..n], pick);
    }
  }

  /** No park occurs twice in a list with unique ids. */
  lemma UniqueIdsOccurOnce(parks: seq<Park>)
    requires UniqueIds(parks)
    ensures forall p :: multiset(parks)[p] <= 1
  {
    forall p ensures multiset(parks)[p] <= 1 {
      if multiset(parks)[p] >= 2 {
        var i, j := TwiceTwoPositions(parks, p);
      }
    }
  }

  /** Two different parks of a list with unique ids have different ids. */
  lemma DifferentParksDifferentIds(parks: seq<Park>, x: Park, y: Park)
    requires UniqueIds(parks) && x in parks && y in parks && x != y
    ensures x.id != y.id
  {
    var i := IndexOf(parks, x);
    var j := IndexOf(parks, y);
    assert i != j;
  }

  /** Options that hold `c` once and otherwise parks of `parks` with another
      id have unique ids when `parks` has. */
  lemma UniqueIdsOfOptions(parks: seq<Park>, c: Park, options: seq<Park>)
    requires UniqueIds(parks) && c in parks
    requires multiset(options)[c] == 1
    requires forall p :: p in options && p != c ==> p.id != c.id && multiset(options)[p] <= multiset(parks)[p]
    ensures UniqueIds(options)
  {
    UniqueIdsOccurOnce(parks);
    assert forall x :: multiset(options)[x] <= 1;
    forall a, b | 0 <= a < b < |options| ensures options[a].id != options[b].id {
      OnceEachDistinct(options, a, b);
      assert options[a] in multiset(parks) && options[b] in multiset(parks);
      DifferentParksDifferentIds(parks, options[a], options[b]);
    }
  }

  /** Over a list with unique ids, the options have pairwise different ids. */
  lemma DistinctOptionsForUniqueIds(parks: seq<Park>, pick: nat, wrongOrder: seq<nat>, optionOrder: seq<nat>)
    requires UniqueIds(parks) && pick < |parks|
    ensures UniqueIds(GetRandomParkQuestion(parks, pick, wrongOrder, optionOrder).options)
  {
    var q := GetRandomParkQuestion(parks, pick, wrongOrder, optionOrder);
    QuestionIsPossible(parks, pick, wrongOrder, optionOrder);
    UniqueIdsOfOptions(parks, parks[pick], q.options);
  }

  /** Over a list with unique ids there are four options once the list holds
      four parks or more, and one per park below that. */
  lemma OptionCountForUniqueIds(parks: seq<Park>, pick: nat, wrongOrder: seq<nat>, optionOrder: seq<nat>)
    requires UniqueIds(parks) && pick < |parks|
    ensures |GetRandomParkQuestion(parks, pick, wrongOrder, optionOrder).options| == Min(1 + WrongAnswerLimit, |parks|)
  {
    var q := GetRandomParkQuestion(parks, pick, wrongOrder, optionOrder);
    var w := WrongAnswers(parks, parks[pick].id, wrongOrder);
    assert |q.options| == |[parks[pick]] + w| by {
      assert |multiset(q.options)| == |multiset([parks[pick]] + w)|;
    }
    OtherParksOfUniqueIds(parks, pick);
  }
}
