/** The quiz session: the question order, question generation and the submit and next handlers. */
module Quiz {
  import opened Wrappers
  import opened Text
  import opened Sampling
  import opened Catalog

  /** How many sentences of an item the stem draws from, how many it shows, and how many wrong names are offered. */
  const PoolLimit: nat := 5
  const StemSize: nat := 2
  const DummyCount: nat := 3

  /** `current`: the asked item, the stem shown, the offered names and the expected one. */
  datatype Question = Question(item: Item, stem: string, choices: seq<string>, answer: string)

  /** What the submit handler did: nothing without a selection, otherwise a scored answer. */
  datatype Outcome = NoSelection | Scored(correct: bool)

  /** The catalogue a session runs on, as loading leaves it: non-empty, pairwise distinct names. */
  predicate GoodCatalogue(items: seq<Item>) {
    Distinct(Names(items)) && forall i :: 0 <= i < |items| ==> items[i].name != []
  }

  /** `pool`: the item's first five sentences, or its description when it has none. */
  function StemPool(item: Item): (pool: seq<string>)
    ensures 1 <= |pool| <= PoolLimit
    ensures forall s :: s in pool ==> s in item.sentences || (item.sentences == [] && s == item.description)
  {
    if |item.sentences| > 0 then item.sentences[..Min(PoolLimit, |item.sentences|)] else [item.description]
  }

  /** `stem` joins, one per line, two sentences drawn from `pool` (the one sentence when `pool` has one). */
  ghost predicate StemFrom(stem: string, pool: seq<string>) {
    exists pick: seq<string> {:trigger Join(pick, "\n")} ::
      |pick| == Min(StemSize, |pool|) && multiset(pick) <= multiset(pool) && stem == Join(pick, "\n")
  }

  /** `choices` hold `answer` once and up to three other distinct names, all names of the catalogue. */
  ghost predicate ChoicesFor(choices: seq<string>, answer: string, names: seq<string>) {
    && multiset(choices)[answer] == 1
    && NoDup(choices)
    && (forall c :: c in choices ==> c in names)
    && |choices| == 1 + Min(DummyCount, |names| - 1)
  }

  /** A question `makeQuestion` can build from `items`. */
  ghost predicate WellFormed(q: Question, items: seq<Item>) {
    && q.item in items
    && q.answer == q.item.name
    && ChoicesFor(q.choices, q.answer, Names(items))
    && StemFrom(q.stem, StemPool(q.item))
  }

  /** `!ans` fails only for a non-empty selected value. */
  predicate Selected(selection: Option<string>) {
    selection.Some? && selection.value != []
  }

  /** The correct name plus dummies drawn from the other names, in any order, make up well-formed choices. */
  lemma DummiesMakeChoices(names: seq<string>, answer: string, dummies: seq<string>, choices: seq<string>)
    requires NoDup(names) && answer in names
    requires |dummies| == Min(DummyCount, |Filter(names, {answer})|)
    requires multiset(dummies) <= multiset(Filter(names, {answer}))
    requires multiset(choices) == multiset([answer] + dummies)
    ensures ChoicesFor(choices, answer, names)
    ensures |choices| <= 1 + DummyCount
  {
    FilterOne(names, answer);
    assert |choices| == |multiset(choices)| == 1 + |dummies|;
    assert multiset(dummies)[answer] == 0;
    forall x | x in choices ensures multiset(choices)[x] <= 1 && x in names {
      assert multiset(choices)[x] == multiset([answer])[x] + multiset(dummies)[x];
      if x != answer {
        assert multiset(dummies)[x] <= multiset(names)[x];
        assert x in dummies;
      }
    }
  }

  /** `pool.length >= 2 ? pickN(pool, 2) : [pool[0]]`. */
  method PickStem(pool: seq<string>) returns (pick: seq<string>)
    requires |pool| >= 1
    ensures |pick| == Min(StemSize, |pool|)
    ensures multiset(pick) <= multiset(pool)
  {
    if |pool| >= 2 {
      assert multiset(Filter(pool, {})) == multiset(pool);
      pick := PickN(pool, StemSize, {});
    } else {
      pick := [pool[0]];
      assert pool == [pool[0]];
    }
  }

  /** The question body of `makeQuestion` for `item`: a stem from its sentences, then its name and up to three
      other names of `items`, shuffled. */
  method Ask(items: seq<Item>, item: Item) returns (q: Question)
    requires GoodCatalogue(items) && item in items
    ensures q.item == item
    ensures WellFormed(q, items)
  {
    var pool := StemPool(item);
    var pick := PickStem(pool);
    var stem := Join(pick, "\n");

    var names := Names(items);
    var dummies := PickN(names, DummyCount, {item.name});
    var choices := Shuffle([item.name] + dummies);

    DistinctNoDup(names);
    var idx :| 0 <= idx < |items| && items[idx] == item;
    assert names[idx] == item.name;
    DummiesMakeChoices(names, item.name, dummies, choices);
    q := Question(item, stem, choices, item.name);
    assert StemFrom(stem, pool);
  }

  /** With at most four names in the catalogue, every name is offered, once. */
  lemma SmallCatalogueOffersAll(choices: seq<string>, answer: string, names: seq<string>)
    requires ChoicesFor(choices, answer, names) && NoDup(names) && answer in names
    requires |names| <= 1 + DummyCount
    ensures multiset(choices) == multiset(names)
  {
    assert multiset(choices) <= multiset(names) by {
      forall x | x in multiset(choices) ensures multiset(choices)[x] <= multiset(names)[x] {
        assert x in choices && x in names;
      }
    }
    var rest := multiset(names) - multiset(choices);
    assert multiset(names) == multiset(choices) + rest;
    assert |rest| == 0;
  }

  /** The module-level quiz state of the page. */
  class Session {
    /** `ALL_ITEMS`, fixed once loaded. */
    const items: seq<Item>
    /** `QUESTION_ORDER`, `questionPtr`, `exhausted`, `current`, `qCount`, `correctCount`. */
    var order: seq<nat>
    var ptr: nat
    var exhausted: bool
    var current: Option<Question>
    var qCount: nat
    var correctCount: nat

    /** What holds whatever the question order is. */
    ghost predicate Stable()
      reads this
    {
      && QuestionOk()
      && correctCount <= qCount
    }

    /** The catalogue is sound, and the last question asked is one `makeQuestion` can build. */
    ghost predicate QuestionOk()
      reads this`current
    {
      && GoodCatalogue(items)
      && (current.Some? ==> WellFormed(current.value, items))
    }

    /** The order is a shuffle of all item indices, and the last question asked is the item under the pointer. */
    ghost predicate Valid()
      reads this
    {
      && Stable()
      && OrderOk()
    }

    ghost predicate OrderOk()
      reads this`order, this`ptr, this`current
    {
      && IsPermutation(order, |items|)
      && |order| == |items|
      && (forall k :: 0 <= k < |order| ==> order[k] < |items|)
      && ptr <= |order|
      && (ptr > 0 ==> current.Some? && current.value.item == items[order[ptr - 1]])
    }

    /** The page state once `loadAll` has filled `ALL_ITEMS`: no order yet, nothing asked, nothing scored. */
    constructor(loaded: seq<Item>)
      requires GoodCatalogue(loaded)
      ensures Stable()
      ensures items == loaded && order == [] && ptr == 0 && !exhausted && current == None
      ensures qCount == 0 && correctCount == 0
    {
      items := loaded;
      order := [];
      ptr := 0;
      exhausted := false;
      current := None;
      qCount := 0;
      correctCount := 0;
    }

    /** `initQuestionOrder`: a fresh shuffle of all indices, the pointer back at the start, `exhausted` cleared. */
    method InitQuestionOrder()
      requires Stable()
      modifies this`order, this`ptr, this`exhausted
      ensures Valid()
      ensures IsPermutation(order, |items|) && ptr == 0 && !exhausted
    {
      order := Shuffle(Range(|items|));
      ptr := 0;
      exhausted := false;
      PermutationIndices(order, |items|);
      forall k | 0 <= k < |order| ensures order[k] < |items| {
        assert order[k] in order;
      }
    }

    /** `makeQuestion`: past the end of the order it only sets `exhausted`; otherwise it asks the next item. */
    method MakeQuestion()
      requires Valid()
      modifies this`ptr, this`exhausted, this`current
      ensures Valid()
      ensures old(ptr) >= |order| ==> exhausted && ptr == old(ptr) && current == old(current)
      ensures old(ptr) < |order| ==>
                && ptr == old(ptr) + 1 && exhausted == old(exhausted)
                && current.Some? && current.value.item == items[order[old(ptr)]]
    {
      if ptr >= |order| {
        exhausted := true;
        return;
      }
      var idx := order[ptr];
      ptr := ptr + 1;
      var q := Ask(items, items[idx]);
      current := Some(q);
    }

    /** The submit handler: without a selection nothing changes; otherwise one more answer, and one more correct
        answer exactly when the selection is the expected name. */
    method Submit(selection: Option<string>) returns (outcome: Outcome)
      requires Valid()
      requires Selected(selection) ==> current.Some?
      modifies this`qCount, this`correctCount
      ensures Valid()
      ensures !Selected(selection) ==> outcome == NoSelection && qCount == old(qCount) && correctCount == old(correctCount)
      ensures Selected(selection) ==>
                && outcome == Scored(selection.value == current.value.answer)
                && qCount == old(qCount) + 1
                && correctCount == old(correctCount) + (if outcome.correct then 1 else 0)
    {
      if !Selected(selection) {
        return NoSelection;
      }
      var ok := selection.value == current.value.answer;
      qCount := qCount + 1;
      if ok {
        correctCount := correctCount + 1;
      }
      outcome := Scored(ok);
    }

    /** The next handler: once exhausted, reshuffle and ask the first item of the new order; otherwise ask the
        next item, or become exhausted. */
    method Next()
      requires Valid()
      modifies this`order, this`ptr, this`exhausted, this`current
      ensures Valid()
      ensures old(exhausted) ==> IsPermutation(order, |items|)
      ensures old(exhausted) && items == [] ==> exhausted && ptr == 0 && current == old(current)
      ensures old(exhausted) && items != [] ==>
                ptr == 1 && !exhausted && current.Some? && current.value.item == items[order[0]]
      ensures !old(exhausted) ==> order == old(order)
      ensures !old(exhausted) && old(ptr) >= |order| ==> exhausted && ptr == old(ptr) && current == old(current)
      ensures !old(exhausted) && old(ptr) < |order| ==>
                && ptr == old(ptr) + 1 && !exhausted
                && current.Some? && current.value.item == items[order[old(ptr)]]
    {
      if exhausted {
        InitQuestionOrder();
        PermutationIndices(order, |items|);
        MakeQuestion();
        return;
      }
      MakeQuestion();
    }
  }

  /** `bootstrap`: load the rows, shuffle the order and ask the first question; fail when no row has a name. */
  method Bootstrap(rows: seq<Row>) returns (r: Result<Session, LoadError>)
    ensures r.Failure? <==> forall i :: 0 <= i < |rows| ==> AllSpaces(MapKey(rows[i], NameKeys))
    ensures r.Success? ==>
              && fresh(r.value) && r.value.Valid() && r.value.items == Survivors(rows)
              && r.value.ptr == 1 && !r.value.exhausted && r.value.qCount == 0 && r.value.correctCount == 0
              && r.value.current.Some? && r.value.current.value.item == r.value.items[r.value.order[0]]
  {
    var loaded := Load(rows);
    if loaded.Failure? {
      return Failure(loaded.error);
    }
    var items := loaded.value;
    forall i | 0 <= i < |items| ensures items[i].name != [] {
      assert items[i] in items;
    }
    var s := Start(items);
    r := Success(s);
  }

  /** The part of `bootstrap` after loading: a new session, a first order, a first question. */
  method Start(items: seq<Item>) returns (s: Session)
    requires GoodCatalogue(items) && items != []
    ensures fresh(s) && s.Valid() && s.items == items
    ensures s.ptr == 1 && !s.exhausted && s.qCount == 0 && s.correctCount == 0
    ensures s.current.Some? && s.current.value.item == s.items[s.order[0]]
  {
    s := new Session(items);
    s.InitQuestionOrder();
    PermutationIndices(s.order, |s.items|);
    s.MakeQuestion();
  }

  /** A catalogue of one named colour is a good one. */
  lemma OneColourCatalogue(item: Item)
    requires item.name != []
    ensures GoodCatalogue([item]) && Names([item]) == [item.name]
  {
    assert Names([item]) == [item.name];
  }

  /** A catalogue of two differently named colours is a good one. */
  lemma TwoColourCatalogue(a: Item, b: Item)
    requires a.name != [] && b.name != [] && a.name != b.name
    ensures GoodCatalogue([a, b]) && Names([a, b]) == [a.name, b.name]
  {
    assert Names([a, b]) == [a.name, b.name];
  }

  /** A one-colour catalogue: a missing selection scores nothing and the colour's own name scores a right answer. */
  method SingleColourAnswers(item: Item) returns (missing: Outcome, answered: Outcome)
    requires item.name != []
    ensures missing == NoSelection && answered == Scored(true)
  {
    OneColourCatalogue(item);
    var s := Start([item]);
    assert s.order[0] < 1;
    missing := s.Submit(None);
    answered := s.Submit(Some(item.name));
  }

  /** A one-colour catalogue: the next click ends the round and the one after starts a new round with the same
      colour. */
  method SingleColourRestart(item: Item) returns (ended: bool, restarted: bool)
    requires item.name != []
    ensures ended && restarted
  {
    OneColourCatalogue(item);
    var s := Start([item]);
    assert s.order[0] < 1;
    s.Next();
    ended := s.exhausted;
    s.Next();
    assert s.order[0] < 1;
    restarted := !s.exhausted && s.current.Some? && s.current.value.item == item;
  }

  /** Every question on a two-colour catalogue offers both names, and expects one of them. */
  lemma TwoColourChoices(a: Item, b: Item, q: Question)
    requires a.name != [] && b.name != [] && a.name != b.name
    requires WellFormed(q, [a, b])
    ensures multiset(q.choices) == multiset{a.name, b.name}
    ensures q.answer == a.name || q.answer == b.name
  {
    TwoColourCatalogue(a, b);
    var names := Names([a, b]);
    DistinctNoDup(names);
    SmallCatalogueOffersAll(q.choices, q.answer, names);
    assert multiset(names) == multiset{a.name, b.name};
  }

  /** A two-colour catalogue: both names are offered, and picking the one that is not the answer scores a wrong
      answer. */
  method TwoColourRound(a: Item, b: Item) returns (choices: seq<string>, wrong: Outcome, asked: nat, correct: nat)
    requires a.name != [] && b.name != [] && a.name != b.name
    ensures multiset(choices) == multiset{a.name, b.name}
    ensures wrong == Scored(false) && asked == 1 && correct == 0
  {
    TwoColourCatalogue(a, b);
    var s := Start([a, b]);
    var q := s.current.value;
    TwoColourChoices(a, b, q);
    choices := q.choices;
    var other := if q.answer == a.name then b.name else a.name;
    wrong := s.Submit(Some(other));
    asked := s.qCount;
    correct := s.correctCount;
  }
}
