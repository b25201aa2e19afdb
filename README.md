# Park guesser: the multiple-choice question builder

park-guesser is a browser quiz: it shows a photo of a US national park and
asks the player to pick its name from a few options. This project models the
one piece of the game with logic of its own, `getRandomParkQuestion` in
`park-guesser/src/app/data/parks.js`, and proves what it guarantees.

The builder works in three steps:

1. It draws the answer, `correctPark`, at a random index of the park list.
2. It keeps the parks whose `id` differs from the answer's, shuffles them,
   and keeps at most three as wrong answers.
3. It shuffles the answer in among the wrong answers to form `options`.

The three random choices are inputs to the model:

- `pick` is the index that `Math.floor(Math.random() * length)` gives.
- Each `sort(() => Math.random() - 0.5)` leaves its array in some order. The
  model gets that order from a stream of draws. Each draw, reduced modulo the
  number of elements left, picks the element that comes next (`Shuffles.Shuffle`).
  `Shuffles.ShufflePermutes` proves that this is always a reordering.
  `Shuffles.ShuffleReachesEveryOrder` proves that every reordering can be drawn.
  So the model neither adds outcomes nor drops any.

Files:

- `shuffles.dfy` (module `Shuffles`): the draw-driven shuffle, `Take` for
  `slice(0, n)`, and sequence helpers.
- `parks.dfy` (module `Parks`): parks, questions, the filter, the wrong
  answers, the builder, and the lemmas about them.
- `catalogue.dfy` (module `Catalogue`): the six-park table served by
  `park-guesser/src/app/api/parks/route.js`, used as a fixture.

The central result is an exact description of what the builder can return.
`Parks.PossibleQuestion` states it without any random choice. The answer is a
park of the list and occurs once among the options. Every other option has
another id and is drawn from the list without replacement. There are as many
wrong answers as three or the number of positions holding another id,
whichever is fewer. `Parks.QuestionIsPossible` proves every result is
possible. `Parks.EveryPossibleQuestionIsBuilt` proves every possible question
is the result for some random choices.

Where the game's design and its code differ, the model follows the code:

- Nothing checks the input.
- There is no error when there are too few parks. A list of n parks with
  unique ids gives `min(4, n)` options, not always four.
- Nothing removes duplicate ids from the pool of wrong answers. When two
  other parks share an id, two options share it too: parks with ids
  [1, 2, 2] and the first one drawn give options with ids 1, 2 and 2. That is
  why `Parks.DistinctOptionsForUniqueIds` requires `UniqueIds` of the list.
- On an empty list the code returns `{correctPark: undefined, options: [undefined]}`.
  The model returns the constructor `NoPark` for it.
- The hint redaction (stripping " National Park" and checking the hint for
  the name) is not in the code. Neither is the no-repeat session queue.

The park list is a value in the model, so it cannot change during the call.
In the code, `filter` builds a fresh array before the in-place `sort`, so
`nationalParks` is not changed either.

## Model

| member | source | states |
|---|---|---|
| `Shuffles.Shuffle` | park-guesser/src/app/data/parks.js:26-31 | the order left by either random-comparator sort, chosen by draws; it has as many elements as its input |
| `Shuffles.ShufflePermutes` | park-guesser/src/app/data/parks.js:26-31 | for both random sorts (line 26 and lines 30-31): whatever the draws, the shuffled array holds the same elements with the same multiplicities |
| `Shuffles.ShuffleReachesEveryOrder` | park-guesser/src/app/data/parks.js:26-31 | for both random sorts (line 26 and lines 30-31): every reordering of the input is the shuffle's result for some draws, so no outcome of the random sort is left out |
| `Shuffles.ShuffleWithoutDraws` | park-guesser/src/app/data/parks.js:26 | with no draws, the shuffle keeps the input order |
| `Shuffles.Take` | park-guesser/src/app/data/parks.js:27 | `slice(0, n)`: the first n elements, or all when there are fewer; elements and multiplicities come from the input |
| `Parks.OtherParks` | park-guesser/src/app/data/parks.js:24-25 | the parks whose id differs from the answer's, in list order: every kept park has another id, and the result is no longer than the list; its exact meaning is stated by `OtherParksMultiplicity` and `OtherParksCountsDifferentIds` |
| `Parks.OtherParksMultiplicity` | park-guesser/src/app/data/parks.js:24-25 | the filter keeps each park with another id as often as the list holds it, and drops every park with the answer's id |
| `Parks.OtherParksCountsDifferentIds` | park-guesser/src/app/data/parks.js:24-25 | the filter's result has one park per list position whose id differs |
| `Parks.OtherParksConcat` | park-guesser/src/app/data/parks.js:24-25 | filtering a concatenation filters each part |
| `Parks.OtherParksKeepsAll` | park-guesser/src/app/data/parks.js:24-25 | the filter keeps every park when none has the answer's id |
| `Parks.OtherParksOfUniqueIds` | park-guesser/src/app/data/parks.js:21-25 | with unique ids, the filter drops exactly the answer and keeps the other length − 1 parks |
| `Parks.WrongAnswers` | park-guesser/src/app/data/parks.js:24-27 | at most three wrong answers, min(3, number of filtered parks); each is a park of the list with another id; they are drawn without replacement from the filtered parks |
| `Parks.WrongAnswerCount` | park-guesser/src/app/data/parks.js:24-27 | the number of wrong answers is min(3, number of positions whose id differs), never more than 3 |
| `Parks.GetRandomParkQuestion` | park-guesser/src/app/data/parks.js:20-37 | an empty list gives `NoPark`; otherwise the answer is the park at the drawn index, and the options are a reordering of the answer plus the wrong answers |
| `Parks.QuestionIsPossible` | park-guesser/src/app/data/parks.js:20-37 | every question built from a non-empty list satisfies `PossibleQuestion` |
| `Parks.EveryPossibleQuestionIsBuilt` | park-guesser/src/app/data/parks.js:20-37 | every question satisfying `PossibleQuestion` is built for some index and draws |
| `Parks.EveryWrongAnswersDrawn` | park-guesser/src/app/data/parks.js:24-27 | every sequence of min(3, n) parks drawn without replacement from the n filtered parks is the wrong answers for some draws |
| `Parks.OptionCount` | park-guesser/src/app/data/parks.js:27-31 | the answer is among the options; there is one option more than wrong answers, between 1 and 4 |
| `Parks.CorrectParkOnceById` | park-guesser/src/app/data/parks.js:24-31 | the answer occurs at exactly one position of the options, and no other option has its id |
| `Parks.DistinctOptionsForUniqueIds` | park-guesser/src/app/data/parks.js:24-31 | when the list's ids are unique, the options' ids are pairwise different |
| `Parks.OptionCountForUniqueIds` | park-guesser/src/app/data/parks.js:21-31 | when the list's ids are unique, there are min(4, list length) options: four once the list holds four parks |
| `Catalogue.NationalParks` | park-guesser/src/app/api/parks/route.js:24-61 | the six served parks in the table's order, with ids 1 to 6; the image field holds the S3 key in place of the presigned URL |
| `Catalogue.CatalogueQuestionsHaveFourDistinctOptions` | park-guesser/src/app/api/parks/route.js:24-61 | over the six served parks, every question has four options with different ids, the answer among them once |
| `Catalogue.DenaliQuestion` | park-guesser/src/app/api/parks/route.js:37-42 | with Denali drawn and no reordering, the options are Denali, Arches, Canyonlands and Glacier; one draw of 3 puts Glacier first |
| `Catalogue.SingleParkQuestion` | park-guesser/src/app/data/parks.js:24-31 | a one-park list gives a question whose only option is that park; no error is raised |

## Left out

- `fetchParksData` (`park-guesser/src/app/data/parks.js:2-17`) is a network fetch and JSON decode. It is I/O and not modelled.
- `park-guesser/src/app/api/parks/route.js` builds an S3 client and presigned URLs. These are foreign AWS SDK calls. Only its static table is used, as a fixture, and the image field holds the S3 key in place of the URL.
- `park-guesser/src/app/api/hint/route.js` is not modelled. It calls a Bedrock model, builds a prompt string and logs to CloudWatch, all foreign calls. Its only local logic is a check for a missing park name and a `trim` of the model's output.
- Hint redaction and the no-repeat session queue are not modelled, because the code has neither.
- The React components (`HintButton.js`, `ParkGuesserDemo.js`, `page.js`, `layout.js`) are UI, state hooks and fetch calls, and are not modelled.
- `Math.random()` is not modelled as a floating-point value. The index is an input, and so is the order each random sort leaves. The model does not state probabilities, so whether the choices are uniform is not captured. How a JavaScript engine sorts with an inconsistent comparator is not captured either. The model assumes only that the sort returns some reordering.
- `Parks.GetRandomParkQuestion`: on an empty list the model returns `NoPark`. It does not represent the `undefined` element inside `options`.
- Park ids are integers compared with `!=`. Ids of other JavaScript types, such as strings or `NaN`, are not modelled.
