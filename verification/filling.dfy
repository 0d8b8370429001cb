/** Filling in answers (`populate_form_fields`): every descriptor without a
    truthy value gets one from a pluggable generator, which is handed the
    descriptor's type, id, option pool, required flag and label. */
module Filling {
  import opened Wrappers
  import opened Json
  import opened Descriptor
  import opened Structure

  /** The answer generator: (type, id, options, required, label) to a value, or
      the exception it raises (`random.choice` on an empty pool, a failed remote
      call). Whatever it does (randomness, clocks, remote calls) is outside the
      model. */
  type Generator = (J, J, seq<J>, bool, J) -> Result<J, Error>

  /** An entry that already carries a truthy value; filling skips it. */
  predicate Filled(f: Field) {
    f.defaultValue.Some? && Truthy(f.defaultValue.value)
  }

  /** `list.remove(x)`: drops the first element equal to `x`, if any. */
  function RemoveFirst(xs: seq<J>, x: J): (r: seq<J>)
    ensures x !in xs ==> r == xs
    ensures x in xs ==> |r| == |xs| - 1
    decreases |xs|
  {
    if |xs| == 0 then []
    else
      assert xs == [xs[0]] + xs[1..];
      if xs[0] == x then xs[1..] else [xs[0]] + RemoveFirst(xs[1..], x)
  }

  /** The removal cuts out exactly the first occurrence. */
  lemma {:induction false} RemoveFirstAt(xs: seq<J>, x: J, i: nat)
    requires i < |xs| && xs[i] == x && x !in xs[..i]
    ensures RemoveFirst(xs, x) == xs[..i] + xs[i + 1..]
    decreases |xs|
  {
    if i > 0 {
      var tail := xs[1..];
      assert xs[..i] == [xs[0]] + tail[..i - 1];
      RemoveFirstAt(tail, x, i - 1);
      assert RemoveFirst(xs, x) == [xs[0]] + (tail[..i - 1] + tail[i..]);
      assert xs[i + 1..] == tail[i..];
    }
  }

  /** The removal takes away one copy of `x` and keeps everything else. */
  lemma {:induction false} RemoveFirstCounts(xs: seq<J>, x: J)
    ensures multiset(RemoveFirst(xs, x)) == multiset(xs) - multiset{x}
    decreases |xs|
  {
    if |xs| > 0 {
      var tail := xs[1..];
      assert xs == [xs[0]] + tail;
      assert multiset(xs) == multiset{xs[0]} + multiset(tail);
      if xs[0] != x {
        RemoveFirstCounts(tail, x);
        assert RemoveFirst(xs, x) == [xs[0]] + RemoveFirst(tail, x);
        assert multiset([xs[0]] + RemoveFirst(tail, x)) == multiset{xs[0]} + multiset(RemoveFirst(tail, x));
      }
    }
  }

  /** The options handed to the generator: the descriptor's options (or none),
      less the first placeholder. */
  function Pool(f: Field): seq<J> {
    RemoveFirst(if f.options.Some? then f.options.value else [], JStr(PlaceholderText))
  }

  /** The generator's outcome for a descriptor that is not filled. */
  function Answer(f: Field, gen: Generator): Result<J, Error> {
    gen(f.kind, f.id, Pool(f), f.required, f.title)
  }

  /** One descriptor after the pass. A filled descriptor is untouched; any other
      gets the generator's answer for its own type, id, pool, flag and label, and
      its own option list loses the first placeholder as well (the program
      removes it from the very list the descriptor holds). An exception from the
      generator is passed on. */
  function PopulateEntry(f: Field, gen: Generator): (r: Result<Field, Error>)
    ensures Filled(f) ==> r == Success(f)
    ensures !Filled(f) ==> (r.Success? <==> Answer(f, gen).Success?)
    ensures !Filled(f) && r.Failure? ==> r.error == Answer(f, gen).error
    ensures !Filled(f) && r.Success? ==> r.value.defaultValue == Some(Answer(f, gen).value)
    ensures !Filled(f) && r.Success? ==> r.value.options == (if f.options.Some? then Some(Pool(f)) else None)
    ensures r.Success? ==> r.value.id == f.id && r.value.title == f.title && r.value.kind == f.kind
    ensures r.Success? ==> r.value.required == f.required && r.value.subLabel == f.subLabel
    ensures r.Success? ==> r.value.containerName == f.containerName && r.value.name == f.name
  {
    if Filled(f) then Success(f)
    else
      var pool := Pool(f);
      var answer :- gen(f.kind, f.id, pool, f.required, f.title);
      Success(f.(options := if f.options.Some? then Some(pool) else None,
                 defaultValue := Some(answer)))
  }

  /** `populate_form_fields(entries, data_generator)`: each descriptor in turn;
      the first exception from the generator ends the pass. */
  function Populate(entries: seq<Field>, gen: Generator): (r: Result<seq<Field>, Error>)
    ensures r.Success? <==> forall i :: 0 <= i < |entries| ==> PopulateEntry(entries[i], gen).Success?
    ensures r.Success? ==> |r.value| == |entries|
    ensures r.Success? ==> forall i :: 0 <= i < |entries| ==> r.value[i] == PopulateEntry(entries[i], gen).value
    decreases |entries|
  {
    if |entries| == 0 then Success([])
    else
      var first :- PopulateEntry(entries[0], gen);
      var rest :- Populate(entries[1..], gen);
      assert forall i :: 1 <= i < |entries| ==> entries[i] == entries[1..][i - 1];
      Success([first] + rest)
  }

  /** The first descriptor whose answer fails decides the pass's error. */
  lemma {:induction false} PopulateFirstFailure(entries: seq<Field>, gen: Generator, k: nat)
    requires k < |entries|
    requires forall j :: 0 <= j < k ==> PopulateEntry(entries[j], gen).Success?
    requires PopulateEntry(entries[k], gen).Failure?
    ensures Populate(entries, gen) == Failure(PopulateEntry(entries[k], gen).error)
    decreases k
  {
    if k > 0 {
      forall j | 0 <= j < k - 1 ensures PopulateEntry(entries[1..][j], gen).Success? {
        assert entries[1..][j] == entries[j + 1];
      }
      assert entries[1..][k - 1] == entries[k];
      PopulateFirstFailure(entries[1..], gen, k - 1);
    }
  }

  /** An unfilled descriptor whose only option is the placeholder offers the
      generator an empty pool, so a generator that must pick from the pool
      (`random.choice`) fails, and with it the whole pass. */
  lemma SolePlaceholderLeavesNoChoice(f: Field, gen: Generator)
    requires f.options == Some([JStr(PlaceholderText)]) && !Filled(f)
    requires gen(f.kind, f.id, [], f.required, f.title).Failure?
    ensures Pool(f) == []
    ensures Populate([f], gen) == Failure(gen(f.kind, f.id, [], f.required, f.title).error)
  {
    assert Pool(f) == [];
    PopulateFirstFailure([f], gen, 0);
  }

  /** A placeholder is still offered after the removal exactly when there were
      at least two. */
  lemma PlaceholderSurvives(xs: seq<J>)
    ensures JStr(PlaceholderText) in RemoveFirst(xs, JStr(PlaceholderText))
      <==> multiset(xs)[JStr(PlaceholderText)] >= 2
  {
    var p := JStr(PlaceholderText);
    RemoveFirstCounts(xs, p);
  }

  /** With a generator that always answers with a truthy value, one pass fills
      every descriptor and a second pass changes nothing. */
  lemma PopulateIdempotent(entries: seq<Field>, gen: Generator)
    requires forall kind, id, pool, required, title ::
      gen(kind, id, pool, required, title).Success? && Truthy(gen(kind, id, pool, required, title).value)
    ensures Populate(entries, gen).Success?
    ensures forall i :: 0 <= i < |entries| ==> Filled(Populate(entries, gen).value[i])
    ensures Populate(Populate(entries, gen).value, gen) == Populate(entries, gen)
  {
    forall i | 0 <= i < |entries| ensures PopulateEntry(entries[i], gen).Success? {
      var f := entries[i];
      if !Filled(f) {
        assert Answer(f, gen).Success?;
      }
    }
    var once := Populate(entries, gen).value;
    forall i | 0 <= i < |entries| ensures Filled(once[i]) {
      var f := entries[i];
      if !Filled(f) {
        assert Truthy(Answer(f, gen).value);
      }
    }
    var twice := Populate(once, gen);
    assert forall i :: 0 <= i < |once| ==> PopulateEntry(once[i], gen) == Success(once[i]);
    assert twice.value == once;
  }

  /** The skip test is truthiness: a descriptor whose value is the empty string
      is answered again, and with two placeholders among its options one of them
      is still offered to the generator. */
  lemma EmptyAnswerRegenerated(gen: Generator)
    requires gen(JNum(2), JStr("q"), [JStr(PlaceholderText)], false, JStr("Q")).Success?
    ensures var p := JStr(PlaceholderText);
      var f := Field(JStr("q"), JStr("Q"), JNum(2), false, Some([p, p]), None, Some(JStr("")), None, None);
      && !Filled(f)
      && PopulateEntry(f, gen).Success?
      && PopulateEntry(f, gen).value.defaultValue == Some(gen(JNum(2), JStr("q"), [p], false, JStr("Q")).value)
      && PopulateEntry(f, gen).value.options == Some([p])
  {
    var p := JStr(PlaceholderText);
    assert RemoveFirst([p, p], p) == [p];
  }

  /** The page history already holds its value, so the pass leaves it alone,
      whatever the generator would do. */
  lemma HistoryKept(pages: nat, gen: Generator)
    ensures Filled(HistoryField(pages))
    ensures PopulateEntry(HistoryField(pages), gen) == Success(HistoryField(pages))
  {
    PageSequenceNonEmpty(pages);
  }
}
