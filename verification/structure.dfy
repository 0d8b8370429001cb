/** Reconstructing the form's fields from its metadata tree (the body of
    `analyze_form_structure` after the fetch, with `process_entry`). The tree is
    read by position: `metadata[1][1]` is the entry list, each entry carries its
    title at 1, its type code at 3 and its sub-fields at 4, and each sub-field
    carries its id at 0, its options at 1, its required flag at 2 and its row
    labels at 3. */
module Structure {
  import opened Wrappers
  import opened Text
  import opened Json
  import opened Descriptor

  /** Type code of the page-break pseudo-entry. */
  const MultiPageType: int := 8
  /** Stand-in for an option without a label. */
  const PlaceholderText: string := "SAMPLE TEXT"

  // ---- one sub-field ----

  /** An option's label: its first element when that is truthy, otherwise the
      placeholder text; an option without a first element is malformed. */
  function OptionLabel(opt: J): Result<J, Error> {
    var first :- At(opt, 0);
    Success(if Truthy(first) then first else JStr(PlaceholderText))
  }

  /** The option labels in order: each option's first element, or the placeholder
      when that element is falsy; so no label is ever falsy. */
  function OptionLabels(opts: seq<J>): (r: Result<seq<J>, Error>)
    ensures r.Success? <==> forall i :: 0 <= i < |opts| ==> At(opts[i], 0).Success?
    ensures r.Failure? ==> r.error == Malformed
    ensures r.Success? ==> |r.value| == |opts|
    ensures r.Success? ==> forall i :: 0 <= i < |opts| ==>
      var first := At(opts[i], 0).value;
      r.value[i] == (if Truthy(first) then first else JStr(PlaceholderText))
    ensures r.Success? ==> forall i :: 0 <= i < |r.value| ==> Truthy(r.value[i])
    decreases |opts|
  {
    if |opts| == 0 then Success([])
    else
      var shown :- OptionLabel(opts[0]);
      var rest :- OptionLabels(opts[1..]);
      assert forall i :: 1 <= i < |opts| ==> opts[i] == opts[1..][i - 1];
      Success([shown] + rest)
  }

  /** The `options` value: `None` for a falsy raw value, else one label per raw option. */
  function OptionsOf(raw: J): (r: Result<Option<seq<J>>, Error>)
    ensures !Truthy(raw) ==> r == Success(None)
    ensures Truthy(raw) ==> (r.Success? <==> Items(raw).Success? && OptionLabels(Items(raw).value).Success?)
    ensures Truthy(raw) && r.Success? ==> r.value == Some(OptionLabels(Items(raw).value).value)
    ensures Truthy(raw) && r.Success? ==> |r.value.value| == |Items(raw).value|
    ensures r.Failure? ==> r.error == Malformed
  {
    if !Truthy(raw) then Success(None)
    else
      var opts :- Items(raw);
      var labels :- OptionLabels(opts);
      Success(Some(labels))
  }

  /** `str.join` accepts strings only. */
  function Texts(parts: seq<J>): (r: Result<seq<string>, Error>)
    ensures r.Success? <==> forall i :: 0 <= i < |parts| ==> parts[i].JStr?
    ensures r.Failure? ==> r.error == Malformed
    ensures r.Success? ==> |r.value| == |parts| && forall i :: 0 <= i < |parts| ==> r.value[i] == parts[i].s
    decreases |parts|
  {
    if |parts| == 0 then Success([])
    else if !parts[0].JStr? then Failure(Malformed)
    else
      var rest :- Texts(parts[1..]);
      assert forall i :: 1 <= i < |parts| ==> parts[i] == parts[1..][i - 1];
      Success([parts[0].s] + rest)
  }

  /** A sub-field's own label: its fourth element, when present and truthy,
      joined with " - "; otherwise none. Taking the length cannot fail here,
      because the sub-field has already been indexed. */
  function SubLabelOf(sub: J): (r: Result<Option<string>, Error>)
    requires sub.JArr? || sub.JStr?
    ensures At(sub, 3).Failure? || !Truthy(At(sub, 3).value) ==> r == Success(None)
    ensures r.Success? && r.value.Some? ==> At(sub, 3).Success? && Truthy(At(sub, 3).value)
    ensures At(sub, 3).Success? && Truthy(At(sub, 3).value) ==>
      var labels := At(sub, 3).value;
      && (r.Success? <==> Items(labels).Success? && Texts(Items(labels).value).Success?)
      && (r.Success? ==> r.value == Some(Join(" - ", Texts(Items(labels).value).value)))
    ensures r.Failure? ==> r.error == Malformed
  {
    match At(sub, 3)
    case Failure(_) => Success(None)
    case Success(labels) =>
      if !Truthy(labels) then Success(None)
      else
        var parts :- Items(labels);
        var texts :- Texts(parts);
        Success(Some(Join(" - ", texts)))
  }

  /** The descriptor of one sub-field: it carries the entry's title and type code,
      and it is required exactly when its flag equals 1 (which `True` does too). */
  function SubfieldDescriptor(title: J, kind: J, sub: J): (r: Result<Field, Error>)
    ensures r.Failure? ==> r.error == Malformed
    ensures At(sub, 0).Failure? || At(sub, 1).Failure? || At(sub, 2).Failure? ==> r.Failure?
    ensures r.Success? ==>
      && r.value.id == At(sub, 0).value
      && r.value.title == title && r.value.kind == kind
      && (r.value.required <==> EqualsOne(At(sub, 2).value))
      && OptionsOf(At(sub, 1).value).Success? && r.value.options == OptionsOf(At(sub, 1).value).value
      && (sub.JArr? || sub.JStr?) && SubLabelOf(sub).Success? && r.value.subLabel == SubLabelOf(sub).value
      && r.value.defaultValue.None? && r.value.containerName.None? && r.value.name.None?
  {
    var id :- At(sub, 0);
    var flag :- At(sub, 2);
    var raw :- At(sub, 1);
    var options :- OptionsOf(raw);
    var subLabel :- SubLabelOf(sub);
    Success(Field(id, title, kind, EqualsOne(flag), options, subLabel, None, None, None))
  }

  /** The descriptors of an entry's sub-fields, in order; with `requiredOnly` the
      ones that are not required are skipped. */
  function DescriptorsOf(title: J, kind: J, subs: seq<J>, requiredOnly: bool): (r: Result<seq<Field>, Error>)
    ensures r.Success? <==> forall i :: 0 <= i < |subs| ==> SubfieldDescriptor(title, kind, subs[i]).Success?
    ensures r.Failure? ==> r.error == Malformed
    ensures r.Success? && !requiredOnly ==> |r.value| == |subs|
    ensures r.Success? ==> forall i :: 0 <= i < |r.value| ==>
      && r.value[i].title == title && r.value[i].kind == kind
      && r.value[i].defaultValue.None? && r.value[i].containerName.None? && r.value[i].name.None?
    ensures r.Success? && requiredOnly ==> forall i :: 0 <= i < |r.value| ==> r.value[i].required
    decreases |subs|
  {
    if |subs| == 0 then Success([])
    else
      var field :- SubfieldDescriptor(title, kind, subs[0]);
      var rest :- DescriptorsOf(title, kind, subs[1..], requiredOnly);
      assert forall i :: 1 <= i < |subs| ==> subs[i] == subs[1..][i - 1];
      Success((if requiredOnly && !field.required then [] else [field]) + rest)
  }

  /** The required descriptors, in their original order. */
  function RequiredOnly(fs: seq<Field>): (r: seq<Field>)
    ensures forall f :: f in r <==> f in fs && f.required
    ensures |r| <= |fs|
    ensures |r| == |fs| <==> forall i :: 0 <= i < |fs| ==> fs[i].required
    decreases |fs|
  {
    if |fs| == 0 then []
    else
      var rest := RequiredOnly(fs[1..]);
      assert forall f :: f in fs <==> f == fs[0] || f in fs[1..];
      if fs[0].required then
        assert forall i :: 1 <= i < |fs| ==> fs[i] == fs[1..][i - 1];
        [fs[0]] + rest
      else rest
  }

  lemma {:induction false} RequiredOnlyAppend(a: seq<Field>, b: seq<Field>)
    ensures RequiredOnly(a + b) == RequiredOnly(a) + RequiredOnly(b)
    decreases |a|
  {
    if |a| == 0 {
      assert a + b == b;
    } else {
      assert (a + b)[1..] == a[1..] + b;
      RequiredOnlyAppend(a[1..], b);
    }
  }

  /** Skipping non-required sub-fields while building gives exactly the
      required-only filter of the full list. */
  lemma {:induction false} DescriptorsRequiredOnly(title: J, kind: J, subs: seq<J>)
    ensures DescriptorsOf(title, kind, subs, true).Success? <==> DescriptorsOf(title, kind, subs, false).Success?
    ensures DescriptorsOf(title, kind, subs, true).Success? ==>
      DescriptorsOf(title, kind, subs, true).value == RequiredOnly(DescriptorsOf(title, kind, subs, false).value)
    decreases |subs|
  {
    if |subs| > 0 {
      DescriptorsRequiredOnly(title, kind, subs[1..]);
      var first := SubfieldDescriptor(title, kind, subs[0]);
      if first.Success? && DescriptorsOf(title, kind, subs[1..], false).Success? {
        var all := DescriptorsOf(title, kind, subs, false).value;
        assert all == [first.value] + DescriptorsOf(title, kind, subs[1..], false).value;
        assert all[1..] == DescriptorsOf(title, kind, subs[1..], false).value;
      }
    }
  }

  /** Without the filter, descriptor i is the one built from sub-field i. */
  lemma {:induction false} DescriptorsInOrder(title: J, kind: J, subs: seq<J>)
    requires DescriptorsOf(title, kind, subs, false).Success?
    ensures forall i :: 0 <= i < |subs| ==>
      DescriptorsOf(title, kind, subs, false).value[i] == SubfieldDescriptor(title, kind, subs[i]).value
    decreases |subs|
  {
    if |subs| > 0 {
      var rest := DescriptorsOf(title, kind, subs[1..], false);
      DescriptorsInOrder(title, kind, subs[1..]);
      assert DescriptorsOf(title, kind, subs, false).value == [SubfieldDescriptor(title, kind, subs[0]).value] + rest.value;
      forall i | 1 <= i < |subs| ensures subs[i] == subs[1..][i - 1] { }
    }
  }

  // ---- one entry ----

  /** `process_entry(entry)`: title at 1, type code at 3, sub-fields at 4. */
  function EntryDescriptors(entry: J, requiredOnly: bool): (r: Result<seq<Field>, Error>)
    ensures r.Failure? ==> r.error == Malformed
    ensures r.Success? ==> At(entry, 1).Success? && At(entry, 3).Success?
    ensures r.Success? ==> forall i :: 0 <= i < |r.value| ==>
      r.value[i].title == At(entry, 1).value && r.value[i].kind == At(entry, 3).value
  {
    var title :- At(entry, 1);
    var kind :- At(entry, 3);
    var list :- At(entry, 4);
    var subs :- Items(list);
    DescriptorsOf(title, kind, subs, requiredOnly)
  }

  /** Without the filter, an entry gives one descriptor per listed sub-field, in
      sub-field order, each carrying the entry's title and type code. */
  lemma EntryDescriptorsInOrder(entry: J)
    requires EntryDescriptors(entry, false).Success?
    ensures |EntryDescriptors(entry, false).value| == |Subfields(entry)|
    ensures forall i :: 0 <= i < |Subfields(entry)| ==>
      EntryDescriptors(entry, false).value[i] == SubfieldDescriptor(At(entry, 1).value, At(entry, 3).value, Subfields(entry)[i]).value
  {
    DescriptorsInOrder(At(entry, 1).value, At(entry, 3).value, Subfields(entry));
  }

  /** A sub-field yields a descriptor exactly when its id, options and flag can
      be read and its options and row labels convert. */
  lemma SubfieldDescriptorSucceeds(title: J, kind: J, sub: J)
    ensures SubfieldDescriptor(title, kind, sub).Success? <==>
      && At(sub, 0).Success? && At(sub, 1).Success? && At(sub, 2).Success?
      && OptionsOf(At(sub, 1).value).Success?
      && SubLabelOf(sub).Success?
  {
  }

  /** An entry yields its descriptors exactly when its title, type code and
      sub-field list can be read and every sub-field yields a descriptor. */
  lemma EntryDescriptorsSucceeds(entry: J, requiredOnly: bool)
    ensures EntryDescriptors(entry, requiredOnly).Success? <==>
      && At(entry, 1).Success? && At(entry, 3).Success? && At(entry, 4).Success?
      && Items(At(entry, 4).value).Success?
      && forall i :: 0 <= i < |Items(At(entry, 4).value).value| ==>
        SubfieldDescriptor(At(entry, 1).value, At(entry, 3).value, Items(At(entry, 4).value).value[i]).Success?
  {
  }

  /** An item whose type code, its fourth element, is the page-break code. */
  predicate IsPageBreak(item: J) {
    At(item, 3) == Success(JNum(MultiPageType))
  }

  /** What one item of the entry list contributes: nothing for a page break,
      otherwise its descriptors. */
  function StepFields(item: J, requiredOnly: bool): (r: Result<seq<Field>, Error>)
    ensures r.Failure? ==> r.error == Malformed
    ensures IsPageBreak(item) ==> r == Success([])
  {
    var code :- At(item, 3);
    if code == JNum(MultiPageType) then Success([]) else EntryDescriptors(item, requiredOnly)
  }

  /** The extracted descriptors of a list of items, in item order; the first
      item that cannot be read decides the error. */
  function ExtractedFields(items: seq<J>, requiredOnly: bool): (r: Result<seq<Field>, Error>)
    ensures r.Failure? ==> r.error == Malformed
    decreases |items|
  {
    if |items| == 0 then Success([])
    else
      var before :- ExtractedFields(items[..|items| - 1], requiredOnly);
      var these :- StepFields(items[|items| - 1], requiredOnly);
      Success(before + these)
  }

  /** An item contributes exactly when its type code can be read and it is a
      page break or its entry yields descriptors. */
  lemma StepFieldsSucceeds(item: J, requiredOnly: bool)
    ensures StepFields(item, requiredOnly).Success? <==>
      At(item, 3).Success? && (IsPageBreak(item) || EntryDescriptors(item, requiredOnly).Success?)
  {
  }

  /** The walk succeeds exactly when every item contributes. */
  lemma {:induction false} ExtractedFieldsSucceeds(items: seq<J>, requiredOnly: bool)
    ensures ExtractedFields(items, requiredOnly).Success? <==>
      forall i :: 0 <= i < |items| ==> StepFields(items[i], requiredOnly).Success?
    decreases |items|
  {
    if |items| > 0 {
      var before := items[..|items| - 1];
      ExtractedFieldsSucceeds(before, requiredOnly);
      assert forall i :: 0 <= i < |before| ==> before[i] == items[i];
    }
  }

  /** The number of page breaks among the items. */
  function PageBreaks(items: seq<J>): (n: nat)
    ensures n <= |items|
    decreases |items|
  {
    if |items| == 0 then 0
    else PageBreaks(items[..|items| - 1]) + (if IsPageBreak(items[|items| - 1]) then 1 else 0)
  }

  /** The sub-fields an entry lists (none when it lists none readable). */
  function Subfields(item: J): seq<J> {
    match At(item, 4)
    case Failure(_) => []
    case Success(list) => if Items(list).Success? then Items(list).value else []
  }

  /** How many descriptors the items yield unfiltered: one per sub-field of
      every item that is not a page break. */
  function SubfieldCount(items: seq<J>): nat
    decreases |items|
  {
    if |items| == 0 then 0
    else SubfieldCount(items[..|items| - 1]) + (if IsPageBreak(items[|items| - 1]) then 0 else |Subfields(items[|items| - 1])|)
  }

  /** Without the filter there is exactly one descriptor per sub-field. */
  lemma {:induction false} ExtractedFieldsCount(items: seq<J>)
    requires ExtractedFields(items, false).Success?
    ensures |ExtractedFields(items, false).value| == SubfieldCount(items)
    decreases |items|
  {
    if |items| > 0 {
      var init := items[..|items| - 1];
      var last := items[|items| - 1];
      ExtractedFieldsCount(init);
      if !IsPageBreak(last) {
        var these := StepFields(last, false);
        assert these == EntryDescriptors(last, false);
        assert |these.value| == |Subfields(last)|;
      }
    }
  }

  /** The required-only walk gives exactly the required descriptors of the full walk. */
  lemma {:induction false} ExtractedFieldsRequiredOnly(items: seq<J>)
    ensures ExtractedFields(items, true).Success? <==> ExtractedFields(items, false).Success?
    ensures ExtractedFields(items, true).Success? ==>
      ExtractedFields(items, true).value == RequiredOnly(ExtractedFields(items, false).value)
    decreases |items|
  {
    if |items| > 0 {
      var init := items[..|items| - 1];
      var last := items[|items| - 1];
      ExtractedFieldsRequiredOnly(init);
      if !IsPageBreak(last) && At(last, 3).Success? && At(last, 1).Success? && At(last, 4).Success?
        && Items(At(last, 4).value).Success?
      {
        DescriptorsRequiredOnly(At(last, 1).value, At(last, 3).value, Items(At(last, 4).value).value);
      }
      if ExtractedFields(items, false).Success? {
        RequiredOnlyAppend(ExtractedFields(init, false).value, StepFields(last, false).value);
      }
    }
  }

  /** No extracted descriptor comes from a page break, and none has a value or
      the renderer's comment keys. */
  lemma {:induction false} ExtractedFieldsShape(items: seq<J>, requiredOnly: bool)
    requires ExtractedFields(items, requiredOnly).Success?
    ensures forall f :: f in ExtractedFields(items, requiredOnly).value ==>
      && f.kind != JNum(MultiPageType)
      && f.defaultValue.None? && f.containerName.None? && f.name.None?
    decreases |items|
  {
    if |items| > 0 {
      var init := items[..|items| - 1];
      var last := items[|items| - 1];
      ExtractedFieldsShape(init, requiredOnly);
      var these := StepFields(last, requiredOnly).value;
      if !IsPageBreak(last) {
        assert forall f :: f in these ==> f.kind == At(last, 3).value;
      }
    }
  }

  // ---- the metadata gate and the synthetic entries ----

  /** The gate at the top: the metadata, `metadata[1]` or `metadata[1][1]` is
      falsy (the reads themselves can still fail). */
  predicate Unavailable(m: J) {
    || !Truthy(m)
    || (At(m, 1).Success? && !Truthy(At(m, 1).value))
    || (At(m, 1).Success? && At(At(m, 1).value, 1).Success? && !Truthy(At(At(m, 1).value, 1).value))
  }

  /** The items of `metadata[1][1]` after the gate. */
  function EntryList(m: J): (r: Result<seq<J>, Error>)
    ensures r == Failure(Unsupported) <==> Unavailable(m)
    ensures r.Failure? ==> r.error == Unsupported || r.error == Malformed
  {
    if !Truthy(m) then Failure(Unsupported)
    else
      var top :- At(m, 1);
      if !Truthy(top) then Failure(Unsupported)
      else
        var list :- At(top, 1);
        if !Truthy(list) then Failure(Unsupported)
        else Items(list)
  }

  /** Whether the form collects respondents' email addresses: the email mode in
      the settings block (element 6 of element 10 of the form body) exceeds 1. */
  function CollectsEmail(m: J): (r: Result<bool, Error>)
    ensures r.Failure? ==> r.error == Malformed
  {
    var top :- At(m, 1);
    var settings :- At(top, 10);
    var mode :- At(settings, 6);
    GreaterThanOne(mode)
  }

  function EmailField(): Field {
    Field(JStr("emailAddress"), JStr("Email Address"), JStr("email"), true, None, None, None, None, None)
  }

  /** The page history of a form with `n` page breaks: the page numbers 0 to `n`
      in decimal, separated by commas. */
  function PageSequence(n: nat): string {
    Join(",", seq(n + 1, i requires 0 <= i < n + 1 => Decimal(i)))
  }

  function HistoryField(pages: nat): Field {
    Field(JStr("pageHistory"), JStr("Page History"), JStr("navigation"), false, None, None,
          Some(JStr(PageSequence(pages))), None, None)
  }

  /** The page history lists the page numbers 0 to `n`, ascending, separated by commas. */
  lemma PageSequenceSplits(n: nat)
    ensures |Split(PageSequence(n), ',')| == n + 1
    ensures forall i :: 0 <= i <= n ==>
      AllDigits(Split(PageSequence(n), ',')[i]) && ParseNat(Split(PageSequence(n), ',')[i]) == i
  {
    var parts := seq(n + 1, i requires 0 <= i < n + 1 => Decimal(i));
    forall i | 0 <= i < |parts| ensures ',' !in parts[i] && AllDigits(parts[i]) && ParseNat(parts[i]) == i {
      NatTextRoundTrip(i);
    }
    assert [','] == ",";
    SplitJoin(parts, ',');
  }

  lemma PageSequenceNonEmpty(n: nat)
    ensures |PageSequence(n)| > 0
  {
    var parts := seq(n + 1, i requires 0 <= i < n + 1 => Decimal(i));
    if n == 0 {
      assert PageSequence(n) == parts[0];
    } else {
      assert PageSequence(n) == parts[0] + "," + Join(",", parts[1..]);
    }
  }

  // ---- the whole structure ----

  /** What the program returns for the metadata: the extracted descriptors, then
      the email descriptor when the form collects addresses, then the page
      history when the form has page breaks. */
  function Analyzed(m: J, requiredOnly: bool): (r: Result<seq<Field>, Error>)
    ensures r == Failure(Unsupported) <==> Unavailable(m)
    ensures r.Failure? ==> r.error == Unsupported || r.error == Malformed
  {
    var items :- EntryList(m);
    var extracted :- ExtractedFields(items, requiredOnly);
    var email :- CollectsEmail(m);
    var pages := PageBreaks(items);
    Success(extracted + (if email then [EmailField()] else []) + (if pages > 0 then [HistoryField(pages)] else []))
  }

  /** The email setting is read when `metadata[1][10][6]` exists and is a
      number or a boolean; addresses are collected exactly when it is a number
      above 1. */
  lemma CollectsEmailValue(m: J)
    ensures CollectsEmail(m).Success? <==>
      && At(m, 1).Success? && At(At(m, 1).value, 10).Success?
      && At(At(At(m, 1).value, 10).value, 6).Success?
      && (At(At(At(m, 1).value, 10).value, 6).value.JNum? || At(At(At(m, 1).value, 10).value, 6).value.JBool?)
    ensures CollectsEmail(m).Success? ==>
      var mode := At(At(At(m, 1).value, 10).value, 6).value;
      (CollectsEmail(m).value <==> mode.JNum? && mode.n > 1)
  {
  }

  /** The analysis succeeds exactly when the gate passes, every item of the
      entry list contributes, and the email setting can be read. */
  lemma AnalyzedSucceeds(m: J, requiredOnly: bool)
    ensures Analyzed(m, requiredOnly).Success? <==>
      && EntryList(m).Success?
      && ExtractedFields(EntryList(m).value, requiredOnly).Success?
      && CollectsEmail(m).Success?
  {
  }

  /** The layout of a successful result: the extracted block first, the email
      descriptor right after it exactly when addresses are collected, and the
      page history last exactly when there are page breaks. */
  lemma AnalyzedLayout(m: J, requiredOnly: bool)
    requires Analyzed(m, requiredOnly).Success?
    ensures var items := EntryList(m).value;
      var extracted := ExtractedFields(items, requiredOnly).value;
      var r := Analyzed(m, requiredOnly).value;
      var email := CollectsEmail(m).value;
      var pages := PageBreaks(items);
      && |r| == |extracted| + (if email then 1 else 0) + (if pages > 0 then 1 else 0)
      && r[..|extracted|] == extracted
      && (email ==> r[|extracted|] == EmailField())
      && (pages > 0 ==> r[|r| - 1] == HistoryField(pages))
      && (pages == 0 ==> !email ==> r == extracted)
  {
    var items := EntryList(m).value;
    var extracted := ExtractedFields(items, requiredOnly).value;
    var email := CollectsEmail(m).value;
    var pages := PageBreaks(items);
    var tail := (if email then [EmailField()] else []) + (if pages > 0 then [HistoryField(pages)] else []);
    assert Analyzed(m, requiredOnly).value == extracted + tail;
  }

  /** No descriptor of a successful result carries the keys the renderer's
      comment mode reads. */
  lemma AnalyzedHasNoContainer(m: J, requiredOnly: bool)
    requires Analyzed(m, requiredOnly).Success?
    ensures forall f :: f in Analyzed(m, requiredOnly).value ==> f.containerName.None? && f.name.None?
  {
    var items := EntryList(m).value;
    ExtractedFieldsShape(items, requiredOnly);
  }

  /** Extending the walk by one item. */
  lemma ExtractedStep(items: seq<J>, k: nat, requiredOnly: bool)
    requires k < |items|
    requires ExtractedFields(items[..k], requiredOnly).Success?
    requires StepFields(items[k], requiredOnly).Success?
    ensures ExtractedFields(items[..k + 1], requiredOnly)
      == Success(ExtractedFields(items[..k], requiredOnly).value + StepFields(items[k], requiredOnly).value)
    ensures PageBreaks(items[..k + 1]) == PageBreaks(items[..k]) + (if IsPageBreak(items[k]) then 1 else 0)
  {
    assert items[..k + 1][..k] == items[..k];
  }

  /** The first item that cannot be read decides the error of the whole walk. */
  lemma {:induction false} FirstBadItemSticks(items: seq<J>, k: nat, n: nat, requiredOnly: bool)
    requires k < n <= |items|
    requires ExtractedFields(items[..k], requiredOnly).Success?
    requires StepFields(items[k], requiredOnly).Failure?
    ensures ExtractedFields(items[..n], requiredOnly) == Failure(StepFields(items[k], requiredOnly).error)
    decreases n
  {
    FirstBadItemFails(items, k, n, requiredOnly);
  }

  lemma {:induction false} FirstBadItemFails(items: seq<J>, k: nat, n: nat, requiredOnly: bool)
    requires k < n <= |items|
    requires StepFields(items[k], requiredOnly).Failure?
    ensures ExtractedFields(items[..n], requiredOnly).Failure?
    decreases n
  {
    var prefix := items[..n];
    assert prefix[..|prefix| - 1] == items[..n - 1];
    if n > k + 1 {
      FirstBadItemFails(items, k, n - 1, requiredOnly);
    } else {
      assert prefix[|prefix| - 1] == items[k];
    }
  }

  /** The loop over the entry list: collects the descriptors of every item that
      is not a page break and counts the page breaks. */
  method WalkEntries(items: seq<J>, requiredOnly: bool) returns (r: Result<seq<Field>, Error>, pageCount: nat)
    ensures r == ExtractedFields(items, requiredOnly)
    ensures r.Success? ==> pageCount == PageBreaks(items)
  {
    var entries: seq<Field> := [];
    pageCount := 0;
    var k := 0;
    while k < |items|
      invariant 0 <= k <= |items|
      invariant ExtractedFields(items[..k], requiredOnly) == Success(entries)
      invariant pageCount == PageBreaks(items[..k])
    {
      var item := items[k];
      var step := StepFields(item, requiredOnly);
      if step.Failure? {
        FirstBadItemSticks(items, k, |items|, requiredOnly);
        assert items[..|items|] == items;
        return Failure(step.error), pageCount;
      }
      ExtractedStep(items, k, requiredOnly);
      if IsPageBreak(item) {
        assert entries + step.value == entries;
        pageCount := pageCount + 1;
      } else {
        entries := entries + step.value;
      }
      k := k + 1;
    }
    assert items[..k] == items;
    return Success(entries), pageCount;
  }

  /** `analyze_form_structure` from the gate on: one pass over the entry list,
      then the synthetic entries. */
  method AnalyzeFormStructure(metadata: J, requiredOnly: bool) returns (r: Result<seq<Field>, Error>)
    ensures r == Analyzed(metadata, requiredOnly)
  {
    var listed := EntryList(metadata);
    if listed.Failure? {
      return Failure(listed.error);
    }
    var walked, pageCount := WalkEntries(listed.value, requiredOnly);
    if walked.Failure? {
      return Failure(walked.error);
    }
    var entries := walked.value;
    var email := CollectsEmail(metadata);
    if email.Failure? {
      return Failure(email.error);
    }
    var extra: seq<Field> := [];
    if email.value {
      extra := [EmailField()];
    }
    var history: seq<Field> := [];
    if pageCount > 0 {
      history := [HistoryField(pageCount)];
    }
    assert Analyzed(metadata, requiredOnly)
      == Success(entries + (if email.value then [EmailField()] else []) + (if pageCount > 0 then [HistoryField(pageCount)] else []));
    return Success(entries + extra + history);
  }

  // ---- worked examples ----

  /** A form's settings block with the given email mode at position 6. */
  function Settings(mode: int): J {
    JArr([JNull, JNull, JNull, JNull, JNull, JNull, JNum(mode)])
  }

  /** Metadata whose entry list is `items` and whose email mode is `mode`. */
  function Metadata(items: seq<J>, mode: int): J {
    JArr([JNull, JArr([JNull, JArr(items), JNull, JNull, JNull, JNull, JNull, JNull, JNull, JNull, Settings(mode)])])
  }

  /** A short-text entry (type code 0) titled "City" with one sub-field: id 123,
      no options, required. */
  function CityEntry(): J {
    JArr([JNull, JStr("City"), JNull, JNum(0), JArr([JArr([JNum(123), JNull, JNum(1)])])])
  }

  /** A page-break entry. */
  function PageBreakEntry(): J {
    JArr([JNull, JNull, JNull, JNum(MultiPageType)])
  }

  function CityField(): Field {
    Field(JNum(123), JStr("City"), JNum(0), true, None, None, None, None, None)
  }

  /** The city entry yields the one descriptor of its sub-field. */
  lemma CityEntryFields()
    ensures StepFields(CityEntry(), false) == Success([CityField()])
  {
    var sub := JArr([JNum(123), JNull, JNum(1)]);
    assert SubLabelOf(sub) == Success(None);
    assert OptionsOf(JNull) == Success(None);
    assert SubfieldDescriptor(JStr("City"), JNum(0), sub) == Success(CityField());
    var subs := [sub];
    assert subs[1..] == [];
    assert DescriptorsOf(JStr("City"), JNum(0), subs[1..], false) == Success([]);
    assert [CityField()] + [] == [CityField()];
    assert DescriptorsOf(JStr("City"), JNum(0), subs, false) == Success([CityField()]);
    assert Items(At(CityEntry(), 4).value) == Success(subs);
  }

  /** The example metadata passes the gate with its items and reads its email
      mode. */
  lemma MetadataReads(items: seq<J>, mode: int)
    requires |items| > 0
    ensures EntryList(Metadata(items, mode)) == Success(items)
    ensures CollectsEmail(Metadata(items, mode)) == Success(mode > 1)
  {
    var top := At(Metadata(items, mode), 1).value;
    assert At(top, 1) == Success(JArr(items));
    assert At(At(top, 10).value, 6) == Success(JNum(mode));
  }

  /** An analysis whose three reads succeed assembles its result from them. */
  lemma AnalyzedFrom(m: J, items: seq<J>, extracted: seq<Field>, email: bool, requiredOnly: bool)
    requires EntryList(m) == Success(items)
    requires ExtractedFields(items, requiredOnly) == Success(extracted)
    requires CollectsEmail(m) == Success(email)
    ensures Analyzed(m, requiredOnly) == Success(extracted
      + (if email then [EmailField()] else [])
      + (if PageBreaks(items) > 0 then [HistoryField(PageBreaks(items))] else []))
  {
  }

  /** The walk over the city entry alone. */
  lemma CityWalk(items: seq<J>)
    requires items == [CityEntry()]
    ensures ExtractedFields(items, false) == Success([CityField()])
    ensures PageBreaks(items) == 0
  {
    CityEntryFields();
    assert items[..0] == [];
    assert items[|items| - 1] == CityEntry();
    var none: seq<Field> := [];
    assert none + [CityField()] == [CityField()];
  }

  /** The walk over a page break followed by the city entry. */
  lemma BreakCityWalk(items: seq<J>)
    requires items == [PageBreakEntry(), CityEntry()]
    ensures ExtractedFields(items, false) == Success([CityField()])
    ensures PageBreaks(items) == 1
  {
    CityEntryFields();
    assert StepFields(PageBreakEntry(), false) == Success([]);
    var first := items[..1];
    assert first == [PageBreakEntry()];
    assert first[..0] == [];
    assert first[|first| - 1] == PageBreakEntry();
    var none: seq<Field> := [];
    assert none + none == none;
    assert ExtractedFields(first, false) == Success([]);
    assert PageBreaks(first) == 1;
    assert items[..|items| - 1] == first;
    assert items[|items| - 1] == CityEntry();
    assert none + [CityField()] == [CityField()];
  }

  /** One required short-text entry and email mode 1: exactly one descriptor, and
      no synthetic ones. */
  lemma SingleEntryExample()
    ensures Analyzed(Metadata([CityEntry()], 1), false) == Success([CityField()])
  {
    var items := [CityEntry()];
    CityWalk(items);
    MetadataReads(items, 1);
    AnalyzedFrom(Metadata(items, 1), items, [CityField()], false, false);
    assert [CityField()] + [] + [] == [CityField()];
  }

  /** The page history of a form with one page break is "0,1". */
  lemma OneBreakHistory()
    ensures PageSequence(1) == "0,1"
  {
    assert Decimal(0) == "0" && Decimal(1) == "1";
    var parts := seq(2, i requires 0 <= i < 2 => Decimal(i));
    assert parts == ["0", "1"];
    assert parts[1..] == ["1"];
    assert Join(",", parts[1..]) == "1";
  }

  /** A page break followed by a text entry, with email mode 2: the text field,
      then the email descriptor, then the page history "0,1". */
  lemma PageBreakEmailExample()
    ensures Analyzed(Metadata([PageBreakEntry(), CityEntry()], 2), false)
      == Success([CityField(), EmailField(), HistoryField(1)])
    ensures HistoryField(1).defaultValue == Some(JStr("0,1"))
  {
    OneBreakHistory();
    var items := [PageBreakEntry(), CityEntry()];
    BreakCityWalk(items);
    MetadataReads(items, 2);
    AnalyzedFrom(Metadata(items, 2), items, [CityField()], true, false);
    assert [CityField()] + [EmailField()] + [HistoryField(1)] == [CityField(), EmailField(), HistoryField(1)];
  }

}
