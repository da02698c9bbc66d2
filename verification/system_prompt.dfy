/** `format_prompt`: the prompt text for one example, chosen by the name of a
    prompt system. A template is a sequence of literal pieces and `{key}`
    fields; filling it looks each field up in the example's dictionary, the
    way `str.format_map` does. */
module SystemPrompt {
  import opened Wrappers
  import opened PyStr

  /** The values an example dictionary holds: `None` or a string. */
  datatype PyValue = PyNone | Str(s: string)

  type FormatDict = map<string, PyValue>

  datatype Piece = Lit(text: string) | Field(name: string)

  type Template = seq<Piece>

  datatype PromptError =
    | KeyError(key: string)        // a field or key missing from the dictionary
    | AttributeError(key: string)  // `strip` called on a `None` value
    | ValueError(name: string)     // an unknown prompt system, once raised

  /** `str(v)`, which is what a field renders as. */
  function Show(v: PyValue): string {
    match v
    case PyNone => "None"
    case Str(s) => s
  }

  predicate KeysPresent(t: Template, d: FormatDict) {
    forall i :: 0 <= i < |t| ==> t[i].Field? ==> t[i].name in d
  }

  /** `template.format_map(d)`: fields are filled left to right; the first
      missing key raises. */
  function FormatMap(t: Template, d: FormatDict): (r: Result<string, PromptError>)
    ensures r.Ok? <==> KeysPresent(t, d)
    ensures r.Err? ==> exists i :: (0 <= i < |t| && t[i].Field? && t[i].name !in d
      && r.error == KeyError(t[i].name) && KeysPresent(t[..i], d))
    decreases |t|
  {
    if |t| == 0 then Ok("")
    else
      var rest := FormatMap(t[1..], d);
      KeysPresentCons(t, d);
      match t[0]
      case Lit(x) =>
        if rest.Err? then
          FirstMissingShift(t, d, rest.error);
          rest
        else Ok(x + rest.value)
      case Field(k) =>
        if k !in d then
          assert t[..0] == [];
          Err(KeyError(k))
        else if rest.Err? then
          FirstMissingShift(t, d, rest.error);
          rest
        else Ok(Show(d[k]) + rest.value)
  }

  lemma KeysPresentCons(t: Template, d: FormatDict)
    requires |t| > 0
    ensures KeysPresent(t, d) <==> (t[0].Field? ==> t[0].name in d) && KeysPresent(t[1..], d)
  {
    if (t[0].Field? ==> t[0].name in d) && KeysPresent(t[1..], d) {
      forall i | 0 <= i < |t| && t[i].Field? ensures t[i].name in d {
        if i > 0 {
          assert t[i] == t[1..][i - 1];
        }
      }
    }
  }

  lemma FirstMissingShift(t: Template, d: FormatDict, e: PromptError)
    requires |t| > 0 && (t[0].Field? ==> t[0].name in d)
    requires exists i :: (0 <= i < |t[1..]| && t[1..][i].Field? && t[1..][i].name !in d
      && e == KeyError(t[1..][i].name) && KeysPresent(t[1..][..i], d))
    ensures exists i :: (0 <= i < |t| && t[i].Field? && t[i].name !in d
      && e == KeyError(t[i].name) && KeysPresent(t[..i], d))
  {
    var i :| 0 <= i < |t[1..]| && t[1..][i].Field? && t[1..][i].name !in d
      && e == KeyError(t[1..][i].name) && KeysPresent(t[1..][..i], d);
    assert t[..i + 1][1..] == t[1..][..i];
    KeysPresentCons(t[..i + 1], d);
    assert t[i + 1] == t[1..][i];
  }

  /** Filling a template piece by piece: the text of two templates side by
      side is the two texts side by side. */
  lemma {:induction false} FormatMapAppend(t1: Template, t2: Template, d: FormatDict)
    requires KeysPresent(t1, d) && KeysPresent(t2, d)
    ensures KeysPresent(t1 + t2, d)
    ensures FormatMap(t1 + t2, d) == Ok(FormatMap(t1, d).value + FormatMap(t2, d).value)
    decreases |t1|
  {
    assert KeysPresent(t1 + t2, d) by {
      forall i | 0 <= i < |t1 + t2| && (t1 + t2)[i].Field? ensures (t1 + t2)[i].name in d {
        if i >= |t1| {
          assert (t1 + t2)[i] == t2[i - |t1|];
        }
      }
    }
    if |t1| == 0 {
      assert t1 + t2 == t2;
      assert FormatMap(t1, d) == Ok("");
      assert "" + FormatMap(t2, d).value == FormatMap(t2, d).value;
    } else {
      assert (t1 + t2)[1..] == t1[1..] + t2;
      assert (t1 + t2)[0] == t1[0];
      KeysPresentCons(t1, d);
      KeysPresentCons(t1 + t2, d);
      FormatMapAppend(t1[1..], t2, d);
      var x := if t1[0].Lit? then t1[0].text else Show(d[t1[0].name]);
      assert FormatMap(t1, d) == Ok(x + FormatMap(t1[1..], d).value);
      assert FormatMap(t1 + t2, d) == Ok(x + FormatMap(t1[1..] + t2, d).value);
      var a, b := FormatMap(t1[1..], d).value, FormatMap(t2, d).value;
      assert x + (a + b) == (x + a) + b;
    }
  }

  /** A literal renders as itself, a present field as the value it names. */
  lemma RenderPieces(x: string, k: string, d: FormatDict)
    requires k in d
    ensures FormatMap([Lit(x)], d) == Ok(x)
    ensures FormatMap([Field(k)], d) == Ok(Show(d[k]))
  {
    assert [Lit(x)][1..] == [];
    assert [Field(k)][1..] == [];
    assert FormatMap([], d) == Ok("");
    assert x + "" == x;
    assert Show(d[k]) + "" == Show(d[k]);
  }

  // ---------------------------------------------------------------------------
  // The templates

  const InstructionHeader: string := "### Instruction:\n"
  const ResponseFooter: string := "\n\n### Response:"

  const AlpacaInputPreamble: string :=
    "Below is an instruction that describes a task, paired with an input that provides further context. "
    + "Write a response that appropriately completes the request.\n\n"

  const AlpacaNoInputPreamble: string :=
    "Below is an instruction that describes a task. "
    + "Write a response that appropriately completes the request.\n\n"

  const ShortQaPreamble: string :=
    "Below is an instruction that describes a task. "
    + "Write a response that appropriately completes the request using a single word or phrase.\n\n"

  const AlpacaInput: Template := [
    Lit(AlpacaInputPreamble + InstructionHeader), Field("instruction"),
    Lit("\n\n### Input:\n"), Field("input"), Lit(ResponseFooter)]

  const AlpacaNoInput: Template := [
    Lit(AlpacaNoInputPreamble + InstructionHeader), Field("instruction"), Lit(ResponseFooter)]

  const ShortQa: Template := [
    Lit(ShortQaPreamble + InstructionHeader), Field("instruction"), Lit(ResponseFooter)]

  const QuestionGeneration: Template := [
    Lit("Generate a question whose answer is:\n"), Field("instruction"), Lit("\n\nQuestion:\n")]

  const InstructionOnly: Template := [Field("instruction")]

  /** The names `format_prompt` knows. */
  const KnownNames: set<string> := {"alpaca", "shortqa", "qg", "caption", "nowllm", "dpo", "kto", "None"}

  /** The alpaca system falls back to the no-input template when the input is
      missing, `None`, empty or all whitespace. */
  predicate NoInput(d: FormatDict): (blank: bool)
    ensures blank <==> "input" !in d || d["input"].PyNone? || AllSpace(d["input"].s)
  {
    "input" !in d || d["input"] == PyNone || d["input"] == Str("") || (d["input"].Str? && IsSpaceStr(d["input"].s))
  }

  /** `d[key].strip()`. */
  function StrippedValue(d: FormatDict, key: string): (r: Result<string, PromptError>)
    ensures r.Ok? <==> key in d && d[key].Str?
    ensures key !in d ==> r == Err(KeyError(key))
    ensures key in d && d[key] == PyNone ==> r == Err(AttributeError(key))
    ensures r.Ok? ==> |r.value| == 0 || (!IsSpace(r.value[0]) && !IsSpace(r.value[|r.value| - 1]))
  {
    if key !in d then Err(KeyError(key))
    else match d[key]
      case PyNone => Err(AttributeError(key))
      case Str(s) => Ok(Strip(s))
  }

  function AsSome(r: Result<string, PromptError>): Result<Option<string>, PromptError> {
    match r
    case Ok(x) => Ok(Some(x))
    case Err(e) => Err(e)
  }

  /** `format_prompt(format_dict, sys_name)`; `Ok(None)` is the `None` an
      unknown name returns. */
  function FormatPrompt(d: FormatDict, sysName: string): (r: Result<Option<string>, PromptError>)
    ensures (r.Ok? && r.value.None?) <==> sysName !in KnownNames
    ensures r.Err? ==> sysName in KnownNames - {"caption"} && !r.error.ValueError?
  {
    if sysName == "alpaca" then
      if NoInput(d) then AsSome(FormatMap(AlpacaNoInput, d)) else AsSome(FormatMap(AlpacaInput, d))
    else if sysName == "shortqa" then AsSome(FormatMap(ShortQa, d))
    else if sysName == "qg" then AsSome(FormatMap(QuestionGeneration, d))
    else if sysName == "caption" then Ok(Some(""))
    else if sysName == "nowllm" then
      var a := StrippedValue(d, "inputs_pretokenized");
      if a.Err? then Err(a.error)
      else
        var b := StrippedValue(d, "targets_pretokenized");
        if b.Err? then Err(b.error) else Ok(Some(a.value + b.value))
    else if sysName == "dpo" then AsSome(StrippedValue(d, "chosen"))
    else if sysName == "kto" then AsSome(StrippedValue(d, "conversation"))
    else if sysName == "None" then AsSome(FormatMap(InstructionOnly, d))
    else Ok(None)
  }

  /** The default system is alpaca. */
  function FormatPromptDefault(d: FormatDict): (r: Result<Option<string>, PromptError>)
    ensures r.Ok? ==> r.value.Some?
  {
    FormatPrompt(d, "alpaca")
  }

  // ---------------------------------------------------------------------------
  // Properties

  /** The text of a template with the instruction as its only field. */
  lemma OneFieldTemplate(pre: string, post: string, d: FormatDict)
    requires "instruction" in d
    ensures FormatMap([Lit(pre), Field("instruction"), Lit(post)], d) == Ok(pre + Show(d["instruction"]) + post)
  {
    RenderPieces(pre, "instruction", d);
    RenderPieces(post, "instruction", d);
    FormatMapAppend([Field("instruction")], [Lit(post)], d);
    FormatMapAppend([Lit(pre)], [Field("instruction"), Lit(post)], d);
    assert [Field("instruction")] + [Lit(post)] == [Field("instruction"), Lit(post)];
    assert [Lit(pre)] + [Field("instruction"), Lit(post)] == [Lit(pre), Field("instruction"), Lit(post)];
    var v := Show(d["instruction"]);
    assert pre + (v + post) == pre + v + post;
  }

  /** Alpaca with a blank input: the no-input prompt around the instruction. */
  lemma AlpacaWithoutInput(d: FormatDict)
    requires NoInput(d) && "instruction" in d
    ensures FormatPrompt(d, "alpaca") ==
      Ok(Some(AlpacaNoInputPreamble + InstructionHeader + Show(d["instruction"]) + ResponseFooter))
  {
    OneFieldTemplate(AlpacaNoInputPreamble + InstructionHeader, ResponseFooter, d);
  }

  /** Alpaca with a real input: instruction and input both in the prompt. */
  lemma AlpacaWithInput(d: FormatDict)
    requires !NoInput(d) && "instruction" in d
    ensures FormatPrompt(d, "alpaca") ==
      Ok(Some(AlpacaInputPreamble + InstructionHeader + Show(d["instruction"])
        + "\n\n### Input:\n" + d["input"].s + ResponseFooter))
  {
    var head := AlpacaInputPreamble + InstructionHeader;
    OneFieldTemplate(head, "\n\n### Input:\n", d);
    RenderPieces("", "input", d);
    RenderPieces(ResponseFooter, "input", d);
    FormatMapAppend([Field("input")], [Lit(ResponseFooter)], d);
    FormatMapAppend([Lit(head), Field("instruction"), Lit("\n\n### Input:\n")], [Field("input"), Lit(ResponseFooter)], d);
    assert [Field("input")] + [Lit(ResponseFooter)] == [Field("input"), Lit(ResponseFooter)];
    assert AlpacaInput == [Lit(head), Field("instruction"), Lit("\n\n### Input:\n")] + [Field("input"), Lit(ResponseFooter)];
    var a := head + Show(d["instruction"]) + "\n\n### Input:\n";
    var v := d["input"].s;
    assert Show(d["input"]) == v;
    assert a + (v + ResponseFooter) == a + v + ResponseFooter;
  }

  /** A template whose first field is a missing instruction raises for it,
      whatever follows. */
  lemma MissingAfterLiteral(pre: string, rest: Template, d: FormatDict)
    requires "instruction" !in d
    ensures FormatMap([Lit(pre), Field("instruction")] + rest, d) == Err(KeyError("instruction"))
  {
    var t := [Lit(pre), Field("instruction")] + rest;
    assert t[1..] == [Field("instruction")] + rest;
    assert t[1..][0] == Field("instruction");
  }

  /** Every filling template needs the instruction: without it the prompt
      raises a `KeyError` for it. */
  lemma MissingInstruction(d: FormatDict, sysName: string)
    requires "instruction" !in d
    requires sysName in {"alpaca", "shortqa", "qg", "None"}
    ensures FormatPrompt(d, sysName) == Err(KeyError("instruction"))
  {
    if sysName == "alpaca" {
      assert AlpacaNoInput == [Lit(AlpacaNoInputPreamble + InstructionHeader), Field("instruction")] + [Lit(ResponseFooter)];
      assert AlpacaInput == [Lit(AlpacaInputPreamble + InstructionHeader), Field("instruction")]
        + [Lit("\n\n### Input:\n"), Field("input"), Lit(ResponseFooter)];
      MissingAfterLiteral(AlpacaNoInputPreamble + InstructionHeader, [Lit(ResponseFooter)], d);
      MissingAfterLiteral(AlpacaInputPreamble + InstructionHeader, [Lit("\n\n### Input:\n"), Field("input"), Lit(ResponseFooter)], d);
    } else if sysName == "shortqa" {
      assert ShortQa == [Lit(ShortQaPreamble + InstructionHeader), Field("instruction")] + [Lit(ResponseFooter)];
      MissingAfterLiteral(ShortQaPreamble + InstructionHeader, [Lit(ResponseFooter)], d);
    } else if sysName == "qg" {
      assert QuestionGeneration == [Lit("Generate a question whose answer is:\n"), Field("instruction")] + [Lit("\n\nQuestion:\n")];
      MissingAfterLiteral("Generate a question whose answer is:\n", [Lit("\n\nQuestion:\n")], d);
    } else {
      assert InstructionOnly[0] == Field("instruction");
    }
  }

  lemma ShortQaAndQuestionGeneration(d: FormatDict)
    requires "instruction" in d
    ensures FormatPrompt(d, "shortqa") ==
      Ok(Some(ShortQaPreamble + InstructionHeader + Show(d["instruction"]) + ResponseFooter))
    ensures FormatPrompt(d, "qg") ==
      Ok(Some("Generate a question whose answer is:\n" + Show(d["instruction"]) + "\n\nQuestion:\n"))
  {
    OneFieldTemplate(ShortQaPreamble + InstructionHeader, ResponseFooter, d);
    OneFieldTemplate("Generate a question whose answer is:\n", "\n\nQuestion:\n", d);
  }

  /** The caption system never prompts. */
  lemma CaptionIsEmpty(d: FormatDict)
    ensures FormatPrompt(d, "caption") == Ok(Some(""))
  {
  }

  /** The `"None"` system passes the instruction through: a string unchanged,
      `None` as the text `None`. */
  lemma NoneSystemPassesInstruction(d: FormatDict)
    requires "instruction" in d
    ensures FormatPrompt(d, "None") == Ok(Some(Show(d["instruction"])))
    ensures d["instruction"].Str? ==> FormatPrompt(d, "None") == Ok(Some(d["instruction"].s))
  {
    RenderPieces("", "instruction", d);
  }

  /** The dpo and kto systems return their text stripped, and stripping it
      again changes nothing. */
  lemma StrippedSystems(d: FormatDict)
    ensures "chosen" in d && d["chosen"].Str? ==>
      FormatPrompt(d, "dpo") == Ok(Some(Strip(d["chosen"].s)))
    ensures "conversation" in d && d["conversation"].Str? ==>
      FormatPrompt(d, "kto") == Ok(Some(Strip(d["conversation"].s)))
    ensures FormatPrompt(d, "dpo").Ok? ==> Strip(FormatPrompt(d, "dpo").value.value) == FormatPrompt(d, "dpo").value.value
    ensures FormatPrompt(d, "kto").Ok? ==> Strip(FormatPrompt(d, "kto").value.value) == FormatPrompt(d, "kto").value.value
  {
    if "chosen" in d && d["chosen"].Str? {
      StripIdempotent(d["chosen"].s);
    }
    if "conversation" in d && d["conversation"].Str? {
      StripIdempotent(d["conversation"].s);
    }
  }

  /** The nowllm system joins the stripped input and target; a missing key or
      a `None` value raises, the input being looked at first. */
  lemma NowLlmJoinsStripped(d: FormatDict)
    ensures var r := FormatPrompt(d, "nowllm");
      && (r.Ok? <==> "inputs_pretokenized" in d && d["inputs_pretokenized"].Str?
                     && "targets_pretokenized" in d && d["targets_pretokenized"].Str?)
      && (r.Ok? ==> r.value == Some(Strip(d["inputs_pretokenized"].s) + Strip(d["targets_pretokenized"].s)))
      && ("inputs_pretokenized" !in d ==> r == Err(KeyError("inputs_pretokenized")))
  {
  }

  /** Only the eight known names produce a prompt or an error; every other
      name falls through to `None`. */
  lemma UnknownNameFallsThrough(d: FormatDict, sysName: string)
    ensures FormatPrompt(d, sysName) == Ok(None) <==> sysName !in KnownNames
  {
  }

  /** As written, a misspelt system name is not an error: the prompt is
      silently `None`, where the checked version raises. */
  lemma MisspeltNameGivesNone(d: FormatDict)
    ensures FormatPrompt(d, "Alpaca") == Ok(None)
    ensures FormatPromptChecked(d, "Alpaca") == Err(ValueError("Alpaca"))
  {
    assert "Alpaca" != "alpaca" by { assert "Alpaca"[0] != "alpaca"[0]; }
    UnknownNameFallsThrough(d, "Alpaca");
  }

  /** `format_prompt` as its last branch evidently intends: an unknown name
      raises `ValueError` instead of returning `None`; every known name
      behaves as before. */
  function FormatPromptChecked(d: FormatDict, sysName: string): (r: Result<string, PromptError>)
    ensures r == Err(ValueError(sysName)) <==> sysName !in KnownNames
    ensures sysName in KnownNames ==> (r.Ok? <==> FormatPrompt(d, sysName).Ok?)
    ensures r.Ok? ==> FormatPrompt(d, sysName) == Ok(Some(r.value))
    ensures r.Err? && sysName in KnownNames ==> FormatPrompt(d, sysName) == Err(r.error)
  {
    if sysName !in KnownNames then Err(ValueError(sysName))
    else
      var p := FormatPrompt(d, sysName);
      if p.Err? then Err(p.error) else Ok(p.value.value)
  }
}
