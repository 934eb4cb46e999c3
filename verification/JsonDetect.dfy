/**
  Format detection over a JSON token stream (internal/sbom/format.go). The decoder's state
  is what it has not read yet; the stream ends where the peek window cuts it off.
*/
module JsonDetect {
  import opened Wrappers
  import opened Strings
  import opened Texts

  datatype Token = ObjOpen | ObjClose | ArrOpen | ArrClose | Str(text: string) | Scalar

  datatype Format = Unknown | CycloneDxJson | SpdxJson

  predicate IsDelim(t: Token) {
    !t.Str? && !t.Scalar?
  }

  /** The decoder sees another element before the closing delimiter. */
  predicate More(rest: seq<Token>) {
    rest != [] && rest[0] != ObjClose && rest[0] != ArrClose
  }

  // ----- What skipping and detecting do -----

  /** What is left after one value; None where the stream runs out. */
  function Skip(rest: seq<Token>): (r: Option<seq<Token>>)
    ensures r.Some? ==> |r.value| < |rest|
    decreases |rest|, 0
  {
    if rest == [] then None
    else if !IsDelim(rest[0]) then Some(rest[1..])
    else SkipRest(rest[1..], rest[0] == ObjOpen)
  }

  /** What is left after the remaining elements and the closing delimiter. */
  function SkipRest(rest: seq<Token>, inObject: bool): (r: Option<seq<Token>>)
    ensures r.Some? ==> |r.value| < |rest|
    decreases |rest|, 1
  {
    if !More(rest) then (if rest == [] then None else Some(rest[1..]))
    else
      match Skip(if inObject then rest[1..] else rest)
      case None => None
      case Some(after) => SkipRest(after, inObject)
  }

  function EqualFold(a: string, b: string): bool {
    Lower(a) == Lower(b)
  }

  const BOM_FORMAT := "bomFormat"
  const SPDX_VERSION := "spdxVersion"
  const CYCLONE_DX := "CycloneDX"

  datatype Step = Done(format: Format) | Continue(rest: seq<Token>)

  function Classify(key: string, rest: seq<Token>): (s: Step)
    ensures s.Continue? ==> |s.rest| < |rest|
  {
    if key == BOM_FORMAT then
      if rest == [] then Done(Unknown)
      else if rest[0].Str? && EqualFold(rest[0].text, CYCLONE_DX) then Done(CycloneDxJson)
      else Continue(rest[1..])
    else if key == SPDX_VERSION then
      if rest == [] then Done(Unknown)
      else if rest[0].Str? && rest[0].text != "" then Done(SpdxJson)
      else Continue(rest[1..])
    else
      match Skip(rest)
      case None => Done(Unknown)
      case Some(after) => Continue(after)
  }

  function DetectFields(rest: seq<Token>): Format
    decreases |rest|
  {
    if !More(rest) || !rest[0].Str? then Unknown
    else
      match Classify(rest[0].text, rest[1..])
      case Done(format) => format
      case Continue(after) => DetectFields(after)
  }

  function Detect(tokens: seq<Token>): Format {
    if tokens == [] || tokens[0] != ObjOpen then Unknown else DetectFields(tokens[1..])
  }

  // ----- The decoder -----

  class Decoder {
    var rest: seq<Token>

    constructor (tokens: seq<Token>)
      ensures rest == tokens
    {
      rest := tokens;
    }

    method Next() returns (t: Option<Token>)
      modifies this
      ensures if old(rest) == [] then t == None && rest == [] else t == Some(old(rest)[0]) && rest == old(rest)[1..]
    {
      if rest == [] {
        return None;
      }
      t := Some(rest[0]);
      rest := rest[1..];
    }

    method SkipJsonValue() returns (ok: bool)
      modifies this
      ensures ok <==> Skip(old(rest)).Some?
      ensures ok ==> rest == Skip(old(rest)).value
      ensures |rest| <= |old(rest)|
      decreases |rest|
    {
      var first := Next();
      if first.None? {
        return false;
      }
      if !IsDelim(first.value) {
        return true;
      }
      var inObject := first.value == ObjOpen;
      ghost var start := rest;
      while More(rest)
        invariant |rest| <= |start|
        invariant SkipRest(start, inObject) == SkipRest(rest, inObject)
        decreases |rest|
      {
        if inObject {
          var key := Next();
        }
        ok := SkipJsonValue();
        if !ok {
          return;
        }
      }
      var close := Next();
      return close.Some?;
    }

    method ClassifyTopLevelKey(key: string) returns (format: Format, done: bool)
      modifies this
      ensures match Classify(key, old(rest))
        case Done(f) => done && format == f
        case Continue(after) => !done && rest == after
    {
      if key == BOM_FORMAT {
        var value := Next();
        if value.None? {
          return Unknown, true;
        }
        if value.value.Str? && EqualFold(value.value.text, CYCLONE_DX) {
          return CycloneDxJson, true;
        }
        return Unknown, false;
      } else if key == SPDX_VERSION {
        var value := Next();
        if value.None? {
          return Unknown, true;
        }
        if value.value.Str? && value.value.text != "" {
          return SpdxJson, true;
        }
        return Unknown, false;
      } else {
        var ok := SkipJsonValue();
        return Unknown, !ok;
      }
    }
  }

  method DetectJson(tokens: seq<Token>) returns (format: Format)
    ensures format == Detect(tokens)
  {
    var dec := new Decoder(tokens);
    var first := dec.Next();
    if first.None? || first.value != ObjOpen {
      return Unknown;
    }
    while More(dec.rest)
      invariant DetectFields(dec.rest) == Detect(tokens)
      decreases |dec.rest|
    {
      var key := dec.Next();
      if !key.value.Str? {
        return Unknown;
      }
      var done;
      format, done := dec.ClassifyTopLevelKey(key.value.text);
      if done {
        return;
      }
    }
    return Unknown;
  }

  // ----- Well-formed documents -----

  datatype Json = Number | Text(text: string) | Arr(items: seq<Json>) | Obj(fields: seq<Field>)

  datatype Field = Field(key: string, value: Json)

  function Tokens(j: Json): seq<Token>
    decreases j, 1
  {
    match j
    case Number => [Scalar]
    case Text(s) => [Str(s)]
    case Arr(items) => [ArrOpen] + ItemTokens(items) + [ArrClose]
    case Obj(fields) => [ObjOpen] + FieldTokens(fields) + [ObjClose]
  }

  function ItemTokens(items: seq<Json>): seq<Token>
    decreases items, 0
  {
    if items == [] then [] else Tokens(items[0]) + ItemTokens(items[1..])
  }

  function FieldTokens(fields: seq<Field>): seq<Token>
    decreases fields, 0
  {
    if fields == [] then [] else [Str(fields[0].key)] + Tokens(fields[0].value) + FieldTokens(fields[1..])
  }

  /** Skipping consumes exactly one complete value, whatever its nesting, and leaves the stream right behind it. */
  lemma {:induction false} SkipsOneValue(j: Json, after: seq<Token>)
    ensures Skip(Tokens(j) + after) == Some(after)
    decreases j, 1
  {
    var all := Tokens(j) + after;
    match j
    case Number => assert all[1..] == after;
    case Text(s) => assert all[1..] == after;
    case Arr(items) =>
      assert all[1..] == ItemTokens(items) + ([ArrClose] + after);
      SkipsItems(items, [ArrClose] + after);
    case Obj(fields) =>
      assert all[1..] == FieldTokens(fields) + ([ObjClose] + after);
      SkipsFields(fields, [ObjClose] + after);
  }

  lemma {:induction false} SkipsItems(items: seq<Json>, after: seq<Token>)
    requires after != [] && !More(after)
    ensures SkipRest(ItemTokens(items) + after, false) == Some(after[1..])
    decreases items, 0
  {
    if items == [] {
      assert ItemTokens(items) + after == after;
    } else {
      var all := ItemTokens(items) + after;
      assert all == Tokens(items[0]) + (ItemTokens(items[1..]) + after);
      assert More(all);
      SkipsOneValue(items[0], ItemTokens(items[1..]) + after);
      SkipsItems(items[1..], after);
    }
  }

  lemma {:induction false} SkipsFields(fields: seq<Field>, after: seq<Token>)
    requires after != [] && !More(after)
    ensures SkipRest(FieldTokens(fields) + after, true) == Some(after[1..])
    decreases fields, 0
  {
    if fields == [] {
      assert FieldTokens(fields) + after == after;
    } else {
      FieldTokensStart(fields, after);
      var value := Tokens(fields[0].value) + (FieldTokens(fields[1..]) + after);
      assert ([Str(fields[0].key)] + value)[1..] == value;
      SkipsOneValue(fields[0].value, FieldTokens(fields[1..]) + after);
      SkipsFields(fields[1..], after);
    }
  }

  lemma FieldTokensStart(fields: seq<Field>, after: seq<Token>)
    requires fields != []
    ensures FieldTokens(fields) + after == [Str(fields[0].key)] + (Tokens(fields[0].value) + (FieldTokens(fields[1..]) + after))
  {
    hide Tokens;
    Reassociate([Str(fields[0].key)], Tokens(fields[0].value), FieldTokens(fields[1..]), after);
  }

  lemma Reassociate<T>(a: seq<T>, b: seq<T>, c: seq<T>, d: seq<T>)
    ensures a + b + c + d == a + (b + (c + d))
  {
    assert (a + b) + c == a + (b + c);
    assert (a + (b + c)) + d == a + ((b + c) + d);
    assert (b + c) + d == b + (c + d);
  }

  // ----- The verdict on a document -----

  /** What one top-level field decides on its own. */
  function FieldVerdict(f: Field): Format {
    if f.key == BOM_FORMAT && f.value.Text? && EqualFold(f.value.text, CYCLONE_DX) then CycloneDxJson
    else if f.key == SPDX_VERSION && f.value.Text? && f.value.text != "" then SpdxJson
    else Unknown
  }

  /** The verdict of the first decisive field. */
  function FirstVerdict(fields: seq<Field>): Format {
    if fields == [] then Unknown
    else if FieldVerdict(fields[0]) != Unknown then FieldVerdict(fields[0])
    else FirstVerdict(fields[1..])
  }

  /** Up to the first decisive field, a marker key has no object or array for a value. */
  ghost predicate PlainMarkers(fields: seq<Field>) {
    fields == [] ||
    (&& (fields[0].key in {BOM_FORMAT, SPDX_VERSION} ==> !fields[0].value.Arr? && !fields[0].value.Obj?)
     && (FieldVerdict(fields[0]) != Unknown || PlainMarkers(fields[1..])))
  }

  lemma {:induction false} DetectsFirstVerdict(fields: seq<Field>, after: seq<Token>)
    requires PlainMarkers(fields) && !More(after)
    ensures DetectFields(FieldTokens(fields) + after) == FirstVerdict(fields)
    decreases fields
  {
    hide Tokens, Classify, FieldVerdict, BOM_FORMAT, SPDX_VERSION;
    if fields == [] {
      assert FieldTokens(fields) + after == after;
    } else {
      FieldTokensStart(fields, after);
      var value := Tokens(fields[0].value) + (FieldTokens(fields[1..]) + after);
      assert ([Str(fields[0].key)] + value)[1..] == value;
      ClassifiesField(fields[0], FieldTokens(fields[1..]) + after);
      if FieldVerdict(fields[0]) == Unknown {
        DetectsFirstVerdict(fields[1..], after);
      }
    }
  }

  /** One top-level field either settles the verdict or is stepped over as a whole. */
  lemma ClassifiesField(f: Field, more: seq<Token>)
    requires f.key in {BOM_FORMAT, SPDX_VERSION} ==> !f.value.Arr? && !f.value.Obj?
    ensures Classify(f.key, Tokens(f.value) + more) ==
      if FieldVerdict(f) == Unknown then Continue(more) else Done(FieldVerdict(f))
  {
    hide EqualFold, BOM_FORMAT, SPDX_VERSION, CYCLONE_DX;
    MarkersDiffer();
    if f.key in {BOM_FORMAT, SPDX_VERSION} {
      assert (Tokens(f.value) + more)[1..] == more;
    } else {
      SkipsOneValue(f.value, more);
    }
  }

  lemma MarkersDiffer()
    ensures BOM_FORMAT != SPDX_VERSION
  {
    assert |BOM_FORMAT| != |SPDX_VERSION|;
  }

  /** Nested content never decides: the verdict is that of the first decisive top-level marker. */
  lemma DocumentVerdict(fields: seq<Field>)
    requires PlainMarkers(fields)
    ensures Detect(Tokens(Obj(fields))) == FirstVerdict(fields)
  {
    assert Tokens(Obj(fields))[1..] == FieldTokens(fields) + [ObjClose];
    DetectsFirstVerdict(fields, [ObjClose]);
  }

  // ----- Markers that hold an object or an array -----

  /** An opened container: its remaining fields, or its remaining items. */
  datatype Level = Fields(fields: seq<Field>) | Items(items: seq<Json>)

  function LevelTokens(level: Level): seq<Token> {
    match level
    case Fields(fields) => FieldTokens(fields) + [ObjClose]
    case Items(items) => ItemTokens(items) + [ArrClose]
  }

  /** Innermost container first. */
  function StackTokens(stack: seq<Level>): seq<Token> {
    if stack == [] then [] else LevelTokens(stack[0]) + StackTokens(stack[1..])
  }

  predicate IsMarker(key: string) {
    key == BOM_FORMAT || key == SPDX_VERSION
  }

  predicate IsContainer(j: Json) {
    j.Arr? || j.Obj?
  }

  function Opened(j: Json): Level
    requires IsContainer(j)
  {
    if j.Arr? then Items(j.items) else Fields(j.fields)
  }

  /** An undecided marker opens its container; anything else is stepped over. */
  function Resumed(f: Field, rest: Level, outer: seq<Level>): seq<Level> {
    if IsMarker(f.key) && IsContainer(f.value) then [Opened(f.value), rest] + outer else [rest] + outer
  }

  lemma StackSnoc(level: Level, outer: seq<Level>)
    ensures StackTokens([level] + outer) == LevelTokens(level) + StackTokens(outer)
  {
    assert ([level] + outer)[1..] == outer;
  }

  lemma OpenedTokens(j: Json)
    requires IsContainer(j)
    ensures Tokens(j) != [] && Tokens(j)[1..] == LevelTokens(Opened(j))
    ensures !Tokens(j)[0].Str? && More(Tokens(j))
  {
    match j
    case Arr(items) => assert Tokens(j) == [ArrOpen] + (ItemTokens(items) + [ArrClose]);
    case Obj(fields) => assert Tokens(j) == [ObjOpen] + (FieldTokens(fields) + [ObjClose]);
  }

  /** What is left to read behind a key and its value. */
  lemma ResumedTokens(f: Field, rest: Level, outer: seq<Level>)
    ensures StackTokens(Resumed(f, rest, outer)) ==
      if IsMarker(f.key) && IsContainer(f.value) then Tokens(f.value)[1..] + StackTokens([rest] + outer)
      else StackTokens([rest] + outer)
  {
    hide LevelTokens, StackTokens, IsMarker, Tokens;
    if IsMarker(f.key) && IsContainer(f.value) {
      OpenedTokens(f.value);
      StackSnoc(Opened(f.value), [rest] + outer);
      assert [Opened(f.value), rest] + outer == [Opened(f.value)] + ([rest] + outer);
    }
  }

  lemma ResumedIsShorter(f: Field, rest: Level, outer: seq<Level>)
    ensures |StackTokens(Resumed(f, rest, outer))| < 1 + |Tokens(f.value)| + |StackTokens([rest] + outer)|
  {
    hide LevelTokens, StackTokens, IsMarker;
    ResumedTokens(f, rest, outer);
  }

  lemma FieldsSize(fields: seq<Field>, outer: seq<Level>)
    requires fields != []
    ensures |StackTokens([Fields(fields)] + outer)| ==
      1 + |Tokens(fields[0].value)| + |StackTokens([Fields(fields[1..])] + outer)|
  {
    hide StackTokens, Tokens;
    StackSnoc(Fields(fields), outer);
    StackSnoc(Fields(fields[1..]), outer);
  }

  lemma ItemsSize(items: seq<Json>, outer: seq<Level>)
    requires items != []
    ensures |StackTokens([Items(items)] + outer)| == |Tokens(items[0])| + |StackTokens([Items(items[1..])] + outer)|
  {
    hide StackTokens, Tokens;
    StackSnoc(Items(items), outer);
    StackSnoc(Items(items[1..]), outer);
  }

  /**
    What the walk decides in the innermost container. It ends where that container ends. In an
    array, items pass for keys and values in turn; a key without a value takes the bracket for
    one: a marker is back outside then, any other key steps over the rest of the container outside.
  */
  function Verdict(stack: seq<Level>): Format
    decreases |StackTokens(stack)|
  {
    if stack == [] then Unknown
    else
      var outer := stack[1..];
      assert stack == [stack[0]] + outer;
      match stack[0]
      case Fields(fields) =>
        if fields == [] then Unknown
        else if FieldVerdict(fields[0]) != Unknown then FieldVerdict(fields[0])
        else
          FieldsSize(fields, outer); ResumedIsShorter(fields[0], Fields(fields[1..]), outer);
          Verdict(Resumed(fields[0], Fields(fields[1..]), outer))
      case Items(items) =>
        if items == [] || !items[0].Text? then Unknown
        else if |items| == 1 then
          BehindIsShorter(items, outer);
          Verdict(Behind(items[0].text, outer))
        else
          var f := Field(items[0].text, items[1]);
          if FieldVerdict(f) != Unknown then FieldVerdict(f)
          else
            ItemsSize(items, outer); ItemsSize(items[1..], outer);
            assert items[1..][1..] == items[2..];
            ResumedIsShorter(f, Items(items[2..]), outer);
            Verdict(Resumed(f, Items(items[2..]), outer))
  }

  /** Where the walk goes on after a last item that passes for a key. */
  function Behind(key: string, outer: seq<Level>): seq<Level> {
    if IsMarker(key) || outer == [] then outer else outer[1..]
  }

  lemma BehindIsShorter(items: seq<Json>, outer: seq<Level>)
    requires |items| == 1 && items[0].Text?
    ensures |StackTokens(Behind(items[0].text, outer))| < |StackTokens([Items(items)] + outer)|
  {
    StackSnoc(Items(items), outer);
    ItemsSize(items, outer);
    if outer != [] {
      StackSnoc(outer[0], outer[1..]);
      assert [outer[0]] + outer[1..] == outer;
    }
  }

  lemma {:induction false} SkipsKeysAndValues(fields: seq<Field>, after: seq<Token>)
    requires after != [] && !More(after)
    ensures SkipRest(FieldTokens(fields) + after, false) == Some(after[1..])
    decreases fields
  {
    if fields == [] {
      assert FieldTokens(fields) + after == after;
    } else {
      FieldTokensStart(fields, after);
      var more := FieldTokens(fields[1..]) + after;
      var value := Tokens(fields[0].value) + more;
      var all := [Str(fields[0].key)] + value;
      assert all[1..] == value;
      SkipsOneValue(fields[0].value, more);
      SkipsKeysAndValues(fields[1..], after);
      ValueIsMore(fields[0].value, more);
      hide Tokens, FieldTokens;
      assert Skip(all) == Some(value) && More(all);
    }
  }

  lemma ValueIsMore(j: Json, after: seq<Token>)
    ensures More(Tokens(j) + after)
  {
  }

  lemma SkipsRestOf(level: Level, more: seq<Token>)
    ensures SkipRest(LevelTokens(level) + more, false) == Some(more)
  {
    hide SkipRest, FieldTokens, ItemTokens;
    var close := if level.Fields? then ObjClose else ArrClose;
    assert ([close] + more)[1..] == more;
    match level
    case Fields(fields) =>
      assert LevelTokens(level) + more == FieldTokens(fields) + ([close] + more);
      SkipsKeysAndValues(fields, [close] + more);
    case Items(items) =>
      assert LevelTokens(level) + more == ItemTokens(items) + ([close] + more);
      SkipsItems(items, [close] + more);
  }

  /** Taking a closing bracket for a value steps over the rest of the container outside. */
  lemma SkipsLevel(outer: seq<Level>)
    ensures Skip([ArrClose] + StackTokens(outer)) == if outer == [] then None else Some(StackTokens(outer[1..]))
  {
    hide LevelTokens;
    assert ([ArrClose] + StackTokens(outer))[1..] == StackTokens(outer);
    if outer != [] {
      SkipsRestOf(outer[0], StackTokens(outer[1..]));
    }
  }

  // ----- The verdict on every document -----

  /** Reading one key and value leaves the tokens of the stack that goes on. */
  lemma ClassifiesAny(f: Field, rest: Level, outer: seq<Level>)
    ensures Classify(f.key, Tokens(f.value) + StackTokens([rest] + outer)) ==
      if FieldVerdict(f) == Unknown then Continue(StackTokens(Resumed(f, rest, outer))) else Done(FieldVerdict(f))
  {
    hide Tokens, StackTokens, Classify, FieldVerdict, BOM_FORMAT, SPDX_VERSION;
    var more := StackTokens([rest] + outer);
    ResumedTokens(f, rest, outer);
    if IsMarker(f.key) && IsContainer(f.value) {
      NoTextNoVerdict(f);
      OpensContainer(f, more);
    } else {
      ClassifiesField(f, more);
    }
  }

  lemma OpensContainer(f: Field, more: seq<Token>)
    requires IsMarker(f.key) && IsContainer(f.value)
    ensures Tokens(f.value) != [] && Classify(f.key, Tokens(f.value) + more) == Continue(Tokens(f.value)[1..] + more)
  {
    hide Tokens, IsMarker, Classify;
    OpenedTokens(f.value);
    TakesOneToken(f.key, Tokens(f.value) + more);
    assert (Tokens(f.value) + more)[1..] == Tokens(f.value)[1..] + more;
  }

  lemma NoTextNoVerdict(f: Field)
    requires IsContainer(f.value)
    ensures FieldVerdict(f) == Unknown
  {
  }

  lemma TakesOneToken(key: string, rest: seq<Token>)
    requires IsMarker(key) && rest != [] && !rest[0].Str?
    ensures Classify(key, rest) == Continue(rest[1..])
  {
    hide BOM_FORMAT, SPDX_VERSION;
  }

  lemma FieldsStart(fields: seq<Field>, outer: seq<Level>)
    requires fields != []
    ensures var all := StackTokens([Fields(fields)] + outer);
      && More(all) && all[0] == Str(fields[0].key)
      && all[1..] == Tokens(fields[0].value) + StackTokens([Fields(fields[1..])] + outer)
  {
    hide StackTokens, Tokens, FieldTokens, LevelTokens;
    var more := [ObjClose] + StackTokens(outer);
    ObjectTokens(fields, outer);
    ObjectTokens(fields[1..], outer);
    FieldTokensStart(fields, more);
    var value := Tokens(fields[0].value) + (FieldTokens(fields[1..]) + more);
    assert ([Str(fields[0].key)] + value)[1..] == value;
  }

  lemma ObjectTokens(fields: seq<Field>, outer: seq<Level>)
    ensures StackTokens([Fields(fields)] + outer) == FieldTokens(fields) + ([ObjClose] + StackTokens(outer))
  {
    hide StackTokens, FieldTokens;
    StackSnoc(Fields(fields), outer);
    assert FieldTokens(fields) + [ObjClose] + StackTokens(outer) == FieldTokens(fields) + ([ObjClose] + StackTokens(outer));
  }

  lemma ItemsStart(items: seq<Json>, outer: seq<Level>)
    requires items != []
    ensures StackTokens([Items(items)] + outer) == Tokens(items[0]) + StackTokens([Items(items[1..])] + outer)
    ensures More(StackTokens([Items(items)] + outer))
    ensures items[0].Text? ==> StackTokens([Items(items)] + outer)[1..] == StackTokens([Items(items[1..])] + outer)
  {
    hide StackTokens, Tokens, ItemTokens, More;
    var value, rest, close := Tokens(items[0]), ItemTokens(items[1..]), [ArrClose] + StackTokens(outer);
    ArrayTokens(items, outer);
    ArrayTokens(items[1..], outer);
    FirstItem(items);
    assert value + rest + close == value + (rest + close);
    ValueIsMore(items[0], rest + close);
    if items[0].Text? {
      KeyToken(items[0].text, rest + close);
      assert ([Str(items[0].text)] + (rest + close))[1..] == rest + close;
    }
  }

  lemma FirstItem(items: seq<Json>)
    requires items != []
    ensures ItemTokens(items) == Tokens(items[0]) + ItemTokens(items[1..])
  {
    hide Tokens;
  }

  lemma ArrayTokens(items: seq<Json>, outer: seq<Level>)
    ensures StackTokens([Items(items)] + outer) == ItemTokens(items) + ([ArrClose] + StackTokens(outer))
  {
    hide StackTokens, ItemTokens;
    StackSnoc(Items(items), outer);
    assert ItemTokens(items) + [ArrClose] + StackTokens(outer) == ItemTokens(items) + ([ArrClose] + StackTokens(outer));
  }

  /** The detector computes the verdict on every stack of opened containers. */
  lemma {:induction false} DetectsVerdict(stack: seq<Level>)
    ensures DetectFields(StackTokens(stack)) == Verdict(stack)
    decreases |StackTokens(stack)|
  {
    hide Classify, FieldVerdict, Tokens, FieldTokens, ItemTokens;
    if stack == [] {
      assert StackTokens(stack) == [];
    } else {
      var outer := stack[1..];
      assert stack == [stack[0]] + outer;
      match stack[0]
      case Fields(fields) => DetectsInObject(fields, outer);
      case Items(items) => DetectsInArray(items, outer);
    }
  }

  lemma {:induction false} DetectsInObject(fields: seq<Field>, outer: seq<Level>)
    ensures DetectFields(StackTokens([Fields(fields)] + outer)) == Verdict([Fields(fields)] + outer)
    decreases |StackTokens([Fields(fields)] + outer)|, 0
  {
    hide Classify, FieldVerdict, Tokens, FieldTokens, ItemTokens, StackTokens, LevelTokens;
    var stack := [Fields(fields)] + outer;
    assert stack[1..] == outer;
    if fields == [] {
      EmptyLevel(Fields([]), outer);
    } else {
      FieldsStart(fields, outer);
      FieldsSize(fields, outer);
      ResumedIsShorter(fields[0], Fields(fields[1..]), outer);
      ClassifiesAny(fields[0], Fields(fields[1..]), outer);
      if FieldVerdict(fields[0]) == Unknown {
        DetectsVerdict(Resumed(fields[0], Fields(fields[1..]), outer));
      }
    }
  }

  lemma EmptyLevel(level: Level, outer: seq<Level>)
    requires level == Fields([]) || level == Items([])
    ensures DetectFields(StackTokens([level] + outer)) == Unknown
  {
    StackSnoc(level, outer);
    hide StackTokens;
    assert !More(LevelTokens(level) + StackTokens(outer));
  }

  lemma {:induction false} DetectsInArray(items: seq<Json>, outer: seq<Level>)
    ensures DetectFields(StackTokens([Items(items)] + outer)) == Verdict([Items(items)] + outer)
    decreases |StackTokens([Items(items)] + outer)|, 0
  {
    hide Classify, FieldVerdict, Tokens, FieldTokens, ItemTokens, StackTokens, LevelTokens;
    var stack := [Items(items)] + outer;
    assert stack[1..] == outer;
    if items == [] {
      EmptyLevel(Items([]), outer);
    } else if !items[0].Text? {
      ItemsStart(items, outer);
      NoKey(items[0], StackTokens([Items(items[1..])] + outer));
    } else if |items| == 1 {
      ItemsStart(items, outer);
      KeyToken(items[0].text, StackTokens([Items(items[1..])] + outer));
      BehindIsShorter(items, outer);
      assert items[1..] == [];
      ClassifiesBehind(items[0].text, outer);
      DetectsVerdict(Behind(items[0].text, outer));
    } else {
      var f := Field(items[0].text, items[1]);
      ItemsStart(items, outer);
      KeyToken(items[0].text, StackTokens([Items(items[1..])] + outer));
      ItemsStart(items[1..], outer);
      ItemsSize(items, outer);
      ItemsSize(items[1..], outer);
      assert items[1..][1..] == items[2..];
      ResumedIsShorter(f, Items(items[2..]), outer);
      ClassifiesAny(f, Items(items[2..]), outer);
      if FieldVerdict(f) == Unknown {
        DetectsVerdict(Resumed(f, Items(items[2..]), outer));
      }
    }
  }

  lemma NoKey(j: Json, after: seq<Token>)
    requires !j.Text?
    ensures DetectFields(Tokens(j) + after) == Unknown
  {
    ValueIsMore(j, after);
  }

  lemma KeyToken(text: string, after: seq<Token>)
    ensures Tokens(Text(text)) + after == [Str(text)] + after
  {
  }

  /** The bracket read as a value: after a marker it is just gone, after any other key the container outside is. */
  lemma ClassifiesBehind(key: string, outer: seq<Level>)
    ensures Classify(key, StackTokens([Items([])] + outer)) ==
      if !IsMarker(key) && outer == [] then Done(Unknown) else Continue(StackTokens(Behind(key, outer)))
  {
    StackSnoc(Items([]), outer);
    var all := [ArrClose] + StackTokens(outer);
    assert StackTokens([Items([])] + outer) == all;
    assert all[1..] == StackTokens(outer);
    if IsMarker(key) {
      hide StackTokens, BOM_FORMAT, SPDX_VERSION;
      TakesOneToken(key, all);
    } else {
      hide StackTokens, BOM_FORMAT, SPDX_VERSION, Skip;
      SkipsLevel(outer);
    }
  }

  /** The detector's verdict on every document, nested markers included. */
  lemma DocumentVerdictIs(fields: seq<Field>)
    ensures Detect(Tokens(Obj(fields))) == Verdict([Fields(fields)])
  {
    assert Tokens(Obj(fields))[1..] == LevelTokens(Fields(fields));
    StackSnoc(Fields(fields), []);
    assert [Fields(fields)] + [] == [Fields(fields)];
    assert LevelTokens(Fields(fields)) + StackTokens([]) == LevelTokens(Fields(fields));
    hide StackTokens, LevelTokens;
    DetectsVerdict([Fields(fields)]);
  }

  // ----- When nested content decides -----

  /** The first marker that opens a container, unless an earlier field decides. */
  function FirstTrap(fields: seq<Field>): (k: Option<nat>)
    ensures k.Some? ==> k.value < |fields| && IsMarker(fields[k.value].key) && IsContainer(fields[k.value].value)
  {
    if fields == [] || FieldVerdict(fields[0]) != Unknown then None
    else if IsMarker(fields[0].key) && IsContainer(fields[0].value) then Some(0)
    else
      match FirstTrap(fields[1..])
      case None => None
      case Some(k) => Some(k + 1)
  }

  /** Up to the first trap, the walk decides nothing and steps over every field. */
  lemma {:induction false} WalksToTrap(fields: seq<Field>)
    ensures match FirstTrap(fields)
      case None => Verdict([Fields(fields)]) == FirstVerdict(fields)
      case Some(k) =>
        && Verdict([Fields(fields)]) == Verdict([Opened(fields[k].value), Fields(fields[k + 1..])])
        && FirstVerdict(fields) == FirstVerdict(fields[k + 1..])
  {
    hide FieldVerdict;
    if fields != [] {
      var rest := fields[1..];
      var next := Resumed(fields[0], Fields(rest), []);
      assert [Fields(fields)][1..] == [];
      if FieldVerdict(fields[0]) == Unknown {
        assert Verdict([Fields(fields)]) == Verdict(next);
        if IsMarker(fields[0].key) && IsContainer(fields[0].value) {
          assert next == [Opened(fields[0].value), Fields(rest)];
          assert FirstTrap(fields) == Some(0);
          NoTextNoVerdict(fields[0]);
        } else {
          assert next == [Fields(rest)];
          WalksToTrap(rest);
          if FirstTrap(rest).Some? {
            var k := FirstTrap(rest).value;
            assert fields[k + 1] == rest[k] && fields[k + 2..] == rest[k + 1..];
          }
        }
      }
    }
  }

  ghost predicate SaysCycloneDx(f: Field) {
    f.key == "bomFormat" && f.value.Text? && SameText(f.value.text, "CycloneDX")
  }

  ghost predicate SaysSpdx(f: Field) {
    f.key == "spdxVersion" && f.value.Text? && f.value.text != ""
  }

  lemma FieldVerdictIs(f: Field)
    ensures FieldVerdict(f) == if SaysCycloneDx(f) then CycloneDxJson else if SaysSpdx(f) then SpdxJson else Unknown
  {
    if f.value.Text? {
      LowerIff(f.value.text, "CycloneDX");
    }
  }

  /** Field k says a format, and no field before it does. */
  ghost predicate FirstSaid(fields: seq<Field>, k: nat) {
    && k < |fields| && (SaysCycloneDx(fields[k]) || SaysSpdx(fields[k]))
    && forall j :: 0 <= j < k ==> !SaysCycloneDx(fields[j]) && !SaysSpdx(fields[j])
  }

  /** What the top level says on its own: the format of the first field that says one. */
  lemma {:induction false} FirstVerdictIs(fields: seq<Field>)
    ensures forall k: nat :: FirstSaid(fields, k) ==>
      FirstVerdict(fields) == if SaysCycloneDx(fields[k]) then CycloneDxJson else SpdxJson
    ensures FirstVerdict(fields) == Unknown <==> forall f :: f in fields ==> !SaysCycloneDx(f) && !SaysSpdx(f)
  {
    hide FieldVerdict, SaysCycloneDx, SaysSpdx;
    if fields != [] {
      FieldVerdictIs(fields[0]);
      NotBoth(fields[0]);
      FirstVerdictIs(fields[1..]);
      assert fields == [fields[0]] + fields[1..];
      forall k: nat | FirstSaid(fields, k) && k > 0 ensures FirstSaid(fields[1..], k - 1) {
        assert fields[1..][k - 1] == fields[k];
        assert forall j :: 0 <= j < k - 1 ==> fields[1..][j] == fields[j + 1];
      }
    }
  }

  lemma NotBoth(f: Field)
    ensures !(SaysCycloneDx(f) && SaysSpdx(f))
  {
  }

  /** Where no marker holds an object or an array, the document is of the format that its first such field says. */
  lemma PlainDocument(fields: seq<Field>, k: nat)
    requires forall f :: f in fields && f.key in {"bomFormat", "spdxVersion"} ==> !f.value.Arr? && !f.value.Obj?
    ensures FirstSaid(fields, k) ==> Detect(Tokens(Obj(fields))) == if SaysCycloneDx(fields[k]) then CycloneDxJson else SpdxJson
    ensures (forall f :: f in fields ==> !SaysCycloneDx(f) && !SaysSpdx(f)) ==> Detect(Tokens(Obj(fields))) == Unknown
  {
    hide SaysCycloneDx, SaysSpdx, Detect, Tokens, FirstVerdict;
    NoTrap(fields);
    TopLevelDecidesIff(fields);
    FirstVerdictIs(fields);
  }

  lemma {:induction false} NoTrap(fields: seq<Field>)
    requires forall f :: f in fields && f.key in {"bomFormat", "spdxVersion"} ==> !f.value.Arr? && !f.value.Obj?
    ensures FirstTrap(fields) == None
  {
    if fields != [] {
      assert fields == [fields[0]] + fields[1..];
      NoTrap(fields[1..]);
    }
  }

  /**
    The first decisive top-level marker decides exactly if no marker before it opens a container, or
    what the walk finds from inside the first such container is what the fields behind it decide.
  */
  lemma TopLevelDecidesIff(fields: seq<Field>)
    ensures Detect(Tokens(Obj(fields))) == FirstVerdict(fields) <==>
      match FirstTrap(fields)
      case None => true
      case Some(k) => Verdict([Opened(fields[k].value), Fields(fields[k + 1..])]) == FirstVerdict(fields[k + 1..])
  {
    hide Verdict, FirstVerdict, FirstTrap;
    DocumentVerdictIs(fields);
    WalksToTrap(fields);
  }

  // ----- Markers that hold objects only -----

  /** No marker that the walk opens holds an array. */
  ghost predicate NoMarkerArrays(fields: seq<Field>) {
    fields == [] || FieldVerdict(fields[0]) != Unknown ||
    (if IsMarker(fields[0].key) && IsContainer(fields[0].value)
     then fields[0].value.Obj? && NoMarkerArrays(fields[0].value.fields)
     else NoMarkerArrays(fields[1..]))
  }

  /** The first decisive marker where a marker's object takes the place of everything behind it. */
  function Effective(fields: seq<Field>): Format {
    if fields == [] then Unknown
    else if FieldVerdict(fields[0]) != Unknown then FieldVerdict(fields[0])
    else if IsMarker(fields[0].key) && fields[0].value.Obj? then Effective(fields[0].value.fields)
    else Effective(fields[1..])
  }

  /** The walk goes down into a marker's object and never comes back. */
  lemma {:induction false} ObjectsKeepTheWalk(fields: seq<Field>, outer: seq<Level>)
    requires NoMarkerArrays(fields)
    ensures Verdict([Fields(fields)] + outer) == Effective(fields)
  {
    hide FieldVerdict;
    var stack := [Fields(fields)] + outer;
    assert stack[1..] == outer;
    if fields != [] && FieldVerdict(fields[0]) == Unknown {
      var rest := Fields(fields[1..]);
      var next := Resumed(fields[0], rest, outer);
      assert Verdict(stack) == Verdict(next);
      if IsMarker(fields[0].key) && IsContainer(fields[0].value) {
        assert next == [Fields(fields[0].value.fields)] + ([rest] + outer);
        ObjectsKeepTheWalk(fields[0].value.fields, [rest] + outer);
      } else {
        assert next == [rest] + outer;
        ObjectsKeepTheWalk(fields[1..], outer);
      }
    }
  }

  /** Up to the first trap, descending decides nothing either. */
  lemma {:induction false} DescendsAtTrap(fields: seq<Field>)
    requires NoMarkerArrays(fields)
    ensures match FirstTrap(fields)
      case None => Effective(fields) == FirstVerdict(fields)
      case Some(k) => fields[k].value.Obj? && Effective(fields) == Effective(fields[k].value.fields)
  {
    hide FieldVerdict;
    if fields != [] && FirstTrap(fields) != Some(0) && FieldVerdict(fields[0]) == Unknown {
      DescendsAtTrap(fields[1..]);
    }
  }

  /**
    With objects only, the verdict is found by descending for good, and the top level decides exactly if there is
    no trap or the object in the first one holds, found in the same way, what the fields behind it decide.
  */
  lemma ObjectMarkersDecideIff(fields: seq<Field>)
    requires NoMarkerArrays(fields)
    ensures Detect(Tokens(Obj(fields))) == Effective(fields)
    ensures FirstTrap(fields).Some? ==> fields[FirstTrap(fields).value].value.Obj?
    ensures Detect(Tokens(Obj(fields))) == FirstVerdict(fields) <==>
      match FirstTrap(fields)
      case None => true
      case Some(k) => Effective(fields[k].value.fields) == FirstVerdict(fields[k + 1..])
  {
    hide Verdict, Effective, FirstVerdict;
    DocumentVerdictIs(fields);
    ObjectsKeepTheWalk(fields, []);
    assert [Fields(fields)] + [] == [Fields(fields)];
    DescendsAtTrap(fields);
    WalksToTrap(fields);
  }

  /** A marker with an object for a value lets the object's own keys pass for top-level ones. */
  lemma NestedMarkerMisleads()
    ensures var fields := [Field(BOM_FORMAT, Obj([Field(SPDX_VERSION, Text("SPDX-2.3"))]))];
      Detect(Tokens(Obj(fields))) == SpdxJson && FirstVerdict(fields) == Unknown
  {
    hide BOM_FORMAT, SPDX_VERSION, EqualFold, Skip, SkipRest;
    MarkersDiffer();
    var inner := [Field(SPDX_VERSION, Text("SPDX-2.3"))];
    var fields := [Field(BOM_FORMAT, Obj(inner))];
    var version := Text("SPDX-2.3");
    assert inner[1..] == [] && fields[1..] == [];
    assert Tokens(version) == [Str("SPDX-2.3")];
    assert FieldTokens(inner) == [Str(SPDX_VERSION)] + Tokens(version);
    assert Tokens(Obj(inner)) == [ObjOpen] + FieldTokens(inner) + [ObjClose];
    assert FieldTokens(fields) == [Str(BOM_FORMAT)] + Tokens(Obj(inner));
    assert Tokens(Obj(fields)) == [ObjOpen] + FieldTokens(fields) + [ObjClose];
    var tokens := [ObjOpen, Str(BOM_FORMAT), ObjOpen, Str(SPDX_VERSION), Str("SPDX-2.3"), ObjClose, ObjClose];
    assert Tokens(Obj(fields)) == tokens;
    assert tokens[1..][1..][1..] == tokens[3..] && tokens[3..][1..][0] == Str("SPDX-2.3");
    assert DetectFields(tokens[3..]) == SpdxJson;
    assert Classify(BOM_FORMAT, tokens[1..][1..]) == Continue(tokens[3..]);
  }

  // ----- Truncated documents -----

  lemma {:induction false} SkipSeesPrefix(a: seq<Token>, b: seq<Token>)
    requires Skip(a).Some?
    ensures Skip(a + b) == Some(Skip(a).value + b)
    decreases |a|, 0
  {
    assert (a + b)[1..] == a[1..] + b;
    if IsDelim(a[0]) {
      SkipRestSeesPrefix(a[1..], b, a[0] == ObjOpen);
    }
  }

  lemma {:induction false} SkipRestSeesPrefix(a: seq<Token>, b: seq<Token>, inObject: bool)
    requires SkipRest(a, inObject).Some?
    ensures SkipRest(a + b, inObject) == Some(SkipRest(a, inObject).value + b)
    decreases |a|, 1
  {
    assert (a + b)[1..] == a[1..] + b;
    if More(a) {
      var from := if inObject then a[1..] else a;
      SkipSeesPrefix(from, b);
      SkipRestSeesPrefix(Skip(from).value, b, inObject);
    }
  }

  lemma {:induction false} DetectFieldsSeesPrefix(a: seq<Token>, b: seq<Token>)
    requires DetectFields(a) != Unknown
    ensures DetectFields(a + b) == DetectFields(a)
    decreases |a|
  {
    hide EqualFold, BOM_FORMAT, SPDX_VERSION, CYCLONE_DX;
    assert (a + b)[1..] == a[1..] + b;
    var key := a[0].text;
    if key != BOM_FORMAT && key != SPDX_VERSION {
      SkipSeesPrefix(a[1..], b);
    } else {
      assert (a[1..] + b)[1..] == a[1..][1..] + b;
    }
    if Classify(key, a[1..]).Continue? {
      DetectFieldsSeesPrefix(Classify(key, a[1..]).rest, b);
    }
  }

  /** A verdict other than "unknown" on a truncated document is the verdict on the whole, for any stream. */
  lemma TruncationKeepsVerdict(tokens: seq<Token>, n: nat)
    requires n <= |tokens| && Detect(tokens[..n]) != Unknown
    ensures Detect(tokens) == Detect(tokens[..n])
  {
    assert tokens[1..] == tokens[..n][1..] + tokens[n..];
    DetectFieldsSeesPrefix(tokens[..n][1..], tokens[n..]);
  }
}
