/** The payload renderer (`create_request_payload`, `resolve_input_type`): a
    brace-delimited block with one `"KEY": VALUE` line per descriptor, in order,
    a comma after every line but the last, and optional comment lines. */
module Payload {
  import opened Wrappers
  import opened Text
  import opened Json
  import opened Encode
  import opened Descriptor

  // ---- resolve_input_type ----

  const FreeText: string := "Free-text input"

  /** Type code to the description of the expected input. */
  const InputTypes: map<int, string> := map[
    0 := "Short text",
    1 := "Long text",
    2 := "Single choice",
    3 := "Dropdown menu",
    4 := "Multiple selections",
    5 := "Scale value",
    7 := "Grid selection",
    9 := "Date (YYYY-MM-DD)",
    10 := "Time (HH:MM in 24-hour format)"]

  /** The integer key a hashable value matches in a dict lookup: a number is
      its value and `False`/`True` equal 0/1; strings and `None` match no
      integer key. */
  function IntKey(kind: J): Option<int> {
    match kind
    case JNum(n) => Some(n)
    case JBool(b) => Some(if b then 1 else 0)
    case _ => None
  }

  /** The description of a type code: the table's entry for its integer key, or
      the free-text fallback. A list cannot be a dictionary key, so a list type
      code is outside the lookup altogether. */
  function ResolveInputType(kind: J): (r: string)
    requires !kind.JArr?
    ensures r == FreeText <==> IntKey(kind).None? || IntKey(kind).value !in {0, 1, 2, 3, 4, 5, 7, 9, 10}
    ensures r != FreeText ==> IntKey(kind).Some? && r == InputTypes[IntKey(kind).value]
  {
    var key := IntKey(kind);
    if key.Some? && key.value in InputTypes then InputTypes[key.value] else FreeText
  }

  /** The fixed descriptions, and the fallback for every other code. */
  lemma InputTypeTable()
    ensures ResolveInputType(JNum(0)) == "Short text"
    ensures ResolveInputType(JNum(1)) == "Long text"
    ensures ResolveInputType(JNum(2)) == "Single choice"
    ensures ResolveInputType(JNum(3)) == "Dropdown menu"
    ensures ResolveInputType(JNum(4)) == "Multiple selections"
    ensures ResolveInputType(JNum(5)) == "Scale value"
    ensures ResolveInputType(JNum(7)) == "Grid selection"
    ensures ResolveInputType(JNum(9)) == "Date (YYYY-MM-DD)"
    ensures ResolveInputType(JNum(10)) == "Time (HH:MM in 24-hour format)"
    ensures ResolveInputType(JNum(6)) == FreeText
    ensures ResolveInputType(JNum(8)) == FreeText
    ensures ResolveInputType(JStr("email")) == FreeText
    ensures ResolveInputType(JStr("navigation")) == FreeText
    ensures ResolveInputType(JBool(true)) == "Long text"
  {
  }

  // ---- one entry line ----

  /** `field_id`: the id, prefixed with `entry.` unless the type is the string
      `"required"`. */
  function FieldKey(f: Field): string {
    if f.kind == JStr("required") then PyStr(f.id) else "entry." + PyStr(f.id)
  }

  /** The JSON text of the descriptor's value, or of the empty string when it has
      none; non-ASCII characters are written as they are. */
  function FieldValue(f: Field): string {
    Dumps(if f.defaultValue.Some? then f.defaultValue.value else JStr(""))
  }

  /** The key/value line, with the comma every entry but the last gets. */
  function EntryLine(f: Field, last: bool): string {
    "    \"" + FieldKey(f) + "\": " + FieldValue(f) + (if last then "" else ",")
  }

  /** A line carries the trailing comma exactly when it is not the last. */
  lemma TrailingComma(f: Field, last: bool)
    ensures EndsWith(EntryLine(f, last), ",") <==> !last
  {
    var v := if f.defaultValue.Some? then f.defaultValue.value else JStr("");
    DumpsShape(v);
    var line := EntryLine(f, last);
    if last {
      assert line[|line| - 1] == FieldValue(f)[|FieldValue(f)| - 1];
      assert line[|line| - 1..] != ",";
    }
  }

  /** A descriptor without a value renders the JSON empty string, and a string
      value renders as a JSON string that decodes back to that value. */
  lemma ValueRendering(f: Field)
    ensures f.defaultValue.None? ==> FieldValue(f) == "\"\""
    ensures f.defaultValue.Some? && f.defaultValue.value.JStr? ==>
      var v := FieldValue(f);
      |v| >= 2 && v[0] == '"' && v[|v| - 1] == '"'
      && Unescape(v[1..|v| - 1]) == Some(f.defaultValue.value.s)
  {
    if f.defaultValue.Some? && f.defaultValue.value.JStr? {
      DumpsStringRoundTrip(f.defaultValue.value.s);
    }
  }

  // ---- comment lines ----

  /** The heading's name part: a colon, a space and the name when the name is
      present and truthy, otherwise nothing; a truthy name that is not a string
      cannot be concatenated and fails. */
  function NameSuffix(f: Field): Result<string, Error> {
    if f.name.Some? && Truthy(f.name.value) then
      if f.name.value.JStr? then Success(": " + f.name.value.s) else Failure(BadOperand)
    else Success("")
  }

  /** The `# Field:` line without its required marker; reading
      `field['container_name']` raises when the key is absent. */
  function Heading(f: Field): Result<string, Error> {
    if f.containerName.None? then Failure(MissingKey("container_name"))
    else
      var suffix :- NameSuffix(f);
      Success("    # Field: " + PyStr(f.containerName.value) + suffix)
  }

  predicate HasChoices(f: Field) {
    f.options.Some? && |f.options.value| > 0
  }

  /** The two comment lines printed before an entry in comment mode; they
      cannot be printed without a container name, with a truthy name that is not
      a string, or for a list type code when there are no choices to show. */
  function CommentLines(f: Field): (r: Result<seq<string>, Error>)
    ensures f.containerName.None? ==> r == Failure(MissingKey("container_name"))
    ensures r.Success? <==> Heading(f).Success? && (HasChoices(f) || !f.kind.JArr?)
  {
    var heading :- Heading(f);
    var first := heading + (if f.required then " (required)" else "");
    if HasChoices(f) then Success([first, "    #   Choices: " + PyStr(JArr(f.options.value))])
    else if f.kind.JArr? then Failure(BadOperand)
    else Success([first, "    #   Input Type: " + ResolveInputType(f.kind)])
  }

  /** The three ways comment lines fail: a missing container name (KeyError),
      a truthy name that is not a string, or a list type code without choices
      (both TypeErrors). */
  lemma CommentLinesFailures(f: Field)
    ensures CommentLines(f).Success? <==>
      && f.containerName.Some?
      && (f.name.None? || !Truthy(f.name.value) || f.name.value.JStr?)
      && (HasChoices(f) || !f.kind.JArr?)
    ensures f.containerName.Some? && CommentLines(f).Failure? ==> CommentLines(f).error == BadOperand
  {
  }

  /** The first comment line is the field heading, marked ` (required)` for a
      required field (and, when the heading does not already end that way, only
      then); the second lists the choices exactly when there are some, and
      otherwise describes the expected input. */
  lemma CommentLinesShape(f: Field)
    requires CommentLines(f).Success?
    ensures var r := CommentLines(f).value;
      && |r| == 2 && StartsWith(r[0], "    # Field: ")
      && (f.required ==> EndsWith(r[0], " (required)"))
      && (!EndsWith(Heading(f).value, " (required)") ==> (EndsWith(r[0], " (required)") <==> f.required))
      && (StartsWith(r[1], "    #   Choices: ") <==> HasChoices(f))
      && (!HasChoices(f) ==> r[1] == "    #   Input Type: " + ResolveInputType(f.kind))
  {
    var heading := Heading(f).value;
    var first := heading + (if f.required then " (required)" else "");
    var r := CommentLines(f).value;
    assert r[0] == first;
    assert heading[..13] == "    # Field: ";
    assert first[..13] == heading[..13];
    assert f.required ==> first[|first| - 11..] == " (required)";
    if !f.required {
      assert first == heading;
    }
    if HasChoices(f) {
      assert r[1][..17] == "    #   Choices: ";
    } else {
      assert r[1][..17][9] != "    #   Choices: "[9];
    }
  }

  // ---- the whole block ----

  /** The lines printed for entry `i`: its comments (in comment mode), then its
      key/value line. */
  function FieldLines(fields: seq<Field>, i: nat, comments: bool): Result<seq<string>, Error>
    requires i < |fields|
  {
    var notes :- if comments then CommentLines(fields[i]) else Success([]);
    Success(notes + [EntryLine(fields[i], i == |fields| - 1)])
  }

  /** The lines of the first `n` entries. Comment mode fails exactly when some
      entry's comments cannot be printed; without comments there is exactly one
      line per entry, in order. */
  function LinesUpTo(fields: seq<Field>, comments: bool, n: nat): (r: Result<seq<string>, Error>)
    requires n <= |fields|
    ensures r.Success? <==> (comments ==> forall i :: 0 <= i < n ==> CommentLines(fields[i]).Success?)
    ensures !comments ==> r.Success? && |r.value| == n
    decreases n
  {
    if n == 0 then Success([])
    else
      var before :- LinesUpTo(fields, comments, n - 1);
      var these :- FieldLines(fields, n - 1, comments);
      Success(before + these)
  }

  /** Without comments line `i` is entry `i`'s key/value line. */
  lemma {:induction false} PlainLineAt(fields: seq<Field>, n: nat, i: nat)
    requires i < n <= |fields|
    ensures LinesUpTo(fields, false, n).value[i] == EntryLine(fields[i], i == |fields| - 1)
    decreases n
  {
    var before := LinesUpTo(fields, false, n - 1).value;
    var line := EntryLine(fields[n - 1], n - 1 == |fields| - 1);
    var none: seq<string> := [];
    assert none + [line] == [line];
    assert FieldLines(fields, n - 1, false) == Success([line]);
    assert LinesUpTo(fields, false, n) == Success(before + [line]);
    if i < n - 1 {
      PlainLineAt(fields, n - 1, i);
      assert (before + [line])[i] == before[i];
    }
  }

  /** The lines of the first `n` entries are those of the first `n - 1` followed
      by entry `n - 1`'s. */
  lemma LinesUpToLast(fields: seq<Field>, comments: bool, n: nat)
    requires 0 < n <= |fields|
    requires LinesUpTo(fields, comments, n).Success?
    ensures LinesUpTo(fields, comments, n - 1).Success?
    ensures FieldLines(fields, n - 1, comments).Success?
    ensures LinesUpTo(fields, comments, n).value
      == LinesUpTo(fields, comments, n - 1).value + FieldLines(fields, n - 1, comments).value
  {
  }

  /** In comment mode an entry's block is its two comment lines and its
      key/value line. */
  lemma CommentBlock(fields: seq<Field>, i: nat)
    requires i < |fields|
    requires FieldLines(fields, i, true).Success?
    ensures CommentLines(fields[i]).Success?
    ensures FieldLines(fields, i, true).value == CommentLines(fields[i]).value + [EntryLine(fields[i], i == |fields| - 1)]
    ensures |FieldLines(fields, i, true).value| == 3
  {
    CommentLinesShape(fields[i]);
  }

  /** Prefixes built by appending three-element blocks: prefix `n` has `3n`
      elements, and block `i` sits at positions `3i` to `3i + 2`. */
  lemma {:induction false} StackedBlocks<T>(pre: nat -> seq<T>, block: nat -> seq<T>, n: nat, i: nat)
    requires |pre(0)| == 0
    requires forall k: nat :: k < n ==> |block(k)| == 3 && pre(k + 1) == pre(k) + block(k)
    ensures |pre(n)| == 3 * n
    ensures i < n ==> pre(n)[3 * i..3 * i + 3] == block(i)
    decreases n
  {
    if n > 0 {
      StackedBlocks(pre, block, n - 1, i);
      if i < n - 1 {
        SliceOfLeft(pre(n - 1), block(n - 1), 3 * i, 3 * i + 3);
      } else {
        SliceOfRight(pre(n - 1), block(n - 1));
      }
    }
  }

  /** A successful prefix has successful shorter prefixes. */
  lemma PrefixSucceeds(fields: seq<Field>, comments: bool, k: nat, n: nat)
    requires k <= n <= |fields|
    requires LinesUpTo(fields, comments, n).Success?
    ensures LinesUpTo(fields, comments, k).Success?
  {
  }

  /** The comment-mode lines of the first `k` entries, empty where there are none. */
  function CommentPrefix(fields: seq<Field>, k: nat): seq<string> {
    if k <= |fields| && LinesUpTo(fields, true, k).Success? then LinesUpTo(fields, true, k).value else []
  }

  /** The comment-mode block of entry `k`, empty where there is none. */
  function CommentBlockOf(fields: seq<Field>, k: nat): seq<string> {
    if k < |fields| && FieldLines(fields, k, true).Success? then FieldLines(fields, k, true).value else []
  }

  /** Inside a successful prefix each entry appends a block of three lines. */
  lemma CommentStep(fields: seq<Field>, n: nat, k: nat)
    requires k < n <= |fields|
    requires LinesUpTo(fields, true, n).Success?
    ensures |CommentBlockOf(fields, k)| == 3
    ensures CommentPrefix(fields, k + 1) == CommentPrefix(fields, k) + CommentBlockOf(fields, k)
  {
    PrefixSucceeds(fields, true, k + 1, n);
    LinesUpToLast(fields, true, k + 1);
    BlockLength(fields, k);
  }

  /** In comment mode the first `n` entries give `3n` lines, and entry `i`
      contributes lines `3i` to `3i + 2`: its block of lines. */
  lemma {:induction false} EntryBlocks(fields: seq<Field>, n: nat, i: nat)
    requires n <= |fields|
    requires LinesUpTo(fields, true, n).Success?
    ensures |LinesUpTo(fields, true, n).value| == 3 * n
    ensures i < n ==> FieldLines(fields, i, true).Success?
    ensures i < n ==> LinesUpTo(fields, true, n).value[3 * i..3 * i + 3] == FieldLines(fields, i, true).value
  {
    forall k: nat | k < n
      ensures |CommentBlockOf(fields, k)| == 3
      ensures CommentPrefix(fields, k + 1) == CommentPrefix(fields, k) + CommentBlockOf(fields, k)
    {
      CommentStep(fields, n, k);
    }
    StackedBlocks((k: nat) => CommentPrefix(fields, k), (k: nat) => CommentBlockOf(fields, k), n, i);
    if i < n {
      PrefixSucceeds(fields, true, i + 1, n);
      LinesUpToLast(fields, true, i + 1);
    }
  }

  /** In comment mode every entry contributes three lines. */
  lemma {:induction false} CommentLinesCount(fields: seq<Field>, n: nat)
    requires n <= |fields|
    requires LinesUpTo(fields, true, n).Success?
    ensures |LinesUpTo(fields, true, n).value| == 3 * n
  {
    EntryBlocks(fields, n, 0);
  }

  /** In comment mode entry `i` contributes, at lines `3i` to `3i + 2`, its two
      comment lines followed by its key/value line. */
  lemma CommentLineAt(fields: seq<Field>, n: nat, i: nat)
    requires i < n <= |fields|
    requires LinesUpTo(fields, true, n).Success?
    ensures CommentLines(fields[i]).Success?
    ensures 3 * i + 3 <= |LinesUpTo(fields, true, n).value|
    ensures LinesUpTo(fields, true, n).value[3 * i..3 * i + 3]
      == CommentLines(fields[i]).value + [EntryLine(fields[i], i == |fields| - 1)]
  {
    EntryBlocks(fields, n, i);
    CommentBlock(fields, i);
  }

  /** In comment mode every entry's block is three lines long. */
  lemma BlockLength(fields: seq<Field>, i: nat)
    requires i < |fields|
    requires FieldLines(fields, i, true).Success?
    ensures |FieldLines(fields, i, true).value| == 3
  {
    CommentBlock(fields, i);
  }

  /** A slice inside the left operand of a concatenation. */
  lemma SliceOfLeft<T>(a: seq<T>, b: seq<T>, lo: nat, hi: nat)
    requires lo <= hi <= |a|
    ensures (a + b)[lo..hi] == a[lo..hi]
  {
  }

  /** The right operand of a concatenation, sliced back out. */
  lemma SliceOfRight<T>(a: seq<T>, b: seq<T>)
    ensures (a + b)[|a|..|a| + |b|] == b
  {
  }

  function Flatten(lines: seq<string>): string
    decreases |lines|
  {
    if |lines| == 0 then "" else lines[0] + "\n" + Flatten(lines[1..])
  }

  lemma {:induction false} FlattenAppend(a: seq<string>, b: seq<string>)
    ensures Flatten(a + b) == Flatten(a) + Flatten(b)
    decreases |a|
  {
    if |a| > 0 {
      FlattenAppend(a[1..], b);
      assert (a + b)[1..] == a[1..] + b;
    } else {
      assert a + b == b;
    }
  }

  /** The payload text around its lines. */
  function Frame(lines: seq<string>): string {
    "{\n" + Flatten(lines) + "}"
  }

  lemma {:induction false} FlattenIsJoin(lines: seq<string>, last: string)
    ensures Flatten(lines) + last == Join("\n", lines + [last])
    decreases |lines|
  {
    if |lines| > 0 {
      FlattenIsJoin(lines[1..], last);
      assert (lines + [last])[1..] == lines[1..] + [last];
    }
  }

  /** The framed text is the line-break join of the opening brace, the lines and
      the closing brace. */
  lemma FrameIsJoin(lines: seq<string>)
    ensures Frame(lines) == Join("\n", ["{"] + lines + ["}"])
  {
    FlattenIsJoin(lines, "}");
    assert (["{"] + lines + ["}"])[1..] == lines + ["}"];
  }

  /** Appending entry `k`'s lines extends the text by exactly those lines. */
  lemma LinesStep(fields: seq<Field>, comments: bool, k: nat)
    requires k < |fields|
    requires LinesUpTo(fields, comments, k).Success?
    requires FieldLines(fields, k, comments).Success?
    ensures LinesUpTo(fields, comments, k + 1).Success?
    ensures Flatten(LinesUpTo(fields, comments, k + 1).value)
      == Flatten(LinesUpTo(fields, comments, k).value) + Flatten(FieldLines(fields, k, comments).value)
  {
    var before := LinesUpTo(fields, comments, k).value;
    var these := FieldLines(fields, k, comments).value;
    assert LinesUpTo(fields, comments, k + 1).value == before + these;
    FlattenAppend(before, these);
  }

  /** The first entry whose lines fail decides the error of every longer prefix. */
  lemma {:induction false} FirstFailureSticks(fields: seq<Field>, comments: bool, k: nat, n: nat)
    requires k < n <= |fields|
    requires LinesUpTo(fields, comments, k).Success?
    requires FieldLines(fields, k, comments).Failure?
    ensures LinesUpTo(fields, comments, n) == Failure(FieldLines(fields, k, comments).error)
    decreases n
  {
    if n > k + 1 {
      FirstFailureSticks(fields, comments, k, n - 1);
    }
  }

  /** The payload a render produces: the framed lines, or the first error. */
  function Render(fields: seq<Field>, comments: bool): (r: Result<string, Error>)
    ensures r.Success? <==> (comments ==> forall i :: 0 <= i < |fields| ==> CommentLines(fields[i]).Success?)
    ensures r.Success? ==> StartsWith(r.value, "{\n") && EndsWith(r.value, "}")
  {
    var lines :- LinesUpTo(fields, comments, |fields|);
    var text := Frame(lines);
    assert text[..2] == "{\n";
    Success(text)
  }

  /** No entries render as the bare braces. */
  lemma EmptyPayload(comments: bool)
    ensures Render([], comments) == Success("{\n}")
  {
    var none: seq<Field> := [];
    assert LinesUpTo(none, comments, 0) == Success([]);
    assert Flatten([]) == "";
    assert Frame([]) == "{\n}";
  }

  /** Comment mode stops at the first entry when it has no container name,
      whatever follows it. */
  lemma CommentModeNeedsContainer(fields: seq<Field>)
    requires |fields| > 0 && fields[0].containerName.None?
    ensures Render(fields, true) == Failure(MissingKey("container_name"))
  {
    FirstFailureSticks(fields, true, 0, |fields|);
  }

  /** Once every entry's lines are in, the payload is those lines framed. */
  lemma RenderOfLines(fields: seq<Field>, comments: bool)
    requires LinesUpTo(fields, comments, |fields|).Success?
    ensures Render(fields, comments) == Success("{\n" + Flatten(LinesUpTo(fields, comments, |fields|).value) + "}")
  {
  }

  /** `text` is the rendering of the first `k` entries' lines. */
  predicate RenderedUpTo(fields: seq<Field>, comments: bool, k: nat, text: string) {
    && k <= |fields|
    && LinesUpTo(fields, comments, k).Success?
    && text == Flatten(LinesUpTo(fields, comments, k).value)
  }

  /** `create_request_payload(entries, include_comments)`: appends each entry's
      lines in turn and stops at the first entry whose comments cannot be printed. */
  method CreateRequestPayload(fields: seq<Field>, comments: bool) returns (r: Result<string, Error>)
    ensures r == Render(fields, comments)
  {
    var body := "";
    var k := 0;
    assert LinesUpTo(fields, comments, 0) == Success([]);
    while k < |fields|
      invariant RenderedUpTo(fields, comments, k, body)
    {
      var these := FieldLines(fields, k, comments);
      if these.Failure? {
        FirstFailureSticks(fields, comments, k, |fields|);
        return Failure(these.error);
      }
      LinesStep(fields, comments, k);
      body := body + Flatten(these.value);
      k := k + 1;
    }
    RenderOfLines(fields, comments);
    var payload := "{\n" + body + "}";
    return Success(payload);
  }

  /** A line holds no line break when its key holds none. */
  lemma EntryLineSingle(f: Field, last: bool)
    requires '\n' !in FieldKey(f)
    ensures '\n' !in EntryLine(f, last)
  {
    DumpsShape(if f.defaultValue.Some? then f.defaultValue.value else JStr(""));
  }

  /** Without comments no line of the block holds a line break when no key does. */
  lemma PlainLinesSingle(fields: seq<Field>)
    requires forall i :: 0 <= i < |fields| ==> '\n' !in FieldKey(fields[i])
    ensures LinesUpTo(fields, false, |fields|).Success?
    ensures forall k :: 0 <= k < |LinesUpTo(fields, false, |fields|).value| ==>
      '\n' !in LinesUpTo(fields, false, |fields|).value[k]
  {
    var lines := LinesUpTo(fields, false, |fields|).value;
    forall k | 0 <= k < |lines| ensures '\n' !in lines[k] {
      PlainLineAt(fields, |fields|, k);
      EntryLineSingle(fields[k], k == |fields| - 1);
    }
  }

  /** Without comments, and when no key holds a line break, splitting the
      payload at line breaks recovers the opening brace, the lines and the
      closing brace. */
  lemma PlainSplit(fields: seq<Field>)
    requires forall i :: 0 <= i < |fields| ==> '\n' !in FieldKey(fields[i])
    ensures Render(fields, false).Success?
    ensures Split(Render(fields, false).value, '\n') == ["{"] + LinesUpTo(fields, false, |fields|).value + ["}"]
  {
    PlainLinesSingle(fields);
    var lines := LinesUpTo(fields, false, |fields|).value;
    FramedSplit(lines);
    assert Render(fields, false).value == Frame(lines);
  }

  /** Framed single-line lines split back into the braces and the lines. */
  lemma FramedSplit(lines: seq<string>)
    requires forall k :: 0 <= k < |lines| ==> '\n' !in lines[k]
    ensures Split(Frame(lines), '\n') == ["{"] + lines + ["}"]
  {
    var all := ["{"] + lines + ["}"];
    assert forall k :: 0 <= k < |lines| ==> all[k + 1] == lines[k];
    FrameIsJoin(lines);
    SplitJoin(all, '\n');
  }

  /** Without comments, and when no key holds a line break, the payload splits
      into the opening brace, one line per descriptor in input order, and the
      closing brace. */
  lemma PlainPayloadLines(fields: seq<Field>)
    requires forall i :: 0 <= i < |fields| ==> '\n' !in FieldKey(fields[i])
    ensures Render(fields, false).Success?
    ensures var parts := Split(Render(fields, false).value, '\n');
      && |parts| == |fields| + 2
      && parts[0] == "{" && parts[|fields| + 1] == "}"
      && forall i :: 0 <= i < |fields| ==> parts[i + 1] == EntryLine(fields[i], i == |fields| - 1)
  {
    PlainSplit(fields);
    var lines := LinesUpTo(fields, false, |fields|).value;
    var parts := ["{"] + lines + ["}"];
    forall i | 0 <= i < |fields| ensures parts[i + 1] == EntryLine(fields[i], i == |fields| - 1) {
      PlainLineAt(fields, |fields|, i);
      assert parts[i + 1] == lines[i];
    }
  }
}
