/**
 * `metadata_query_tool(question)`: answers a question about the catalog by
 * having the language model write a Python expression over the catalog frame,
 * evaluating it and shaping what it evaluated to. The model's reply and the
 * evaluation are inputs here; what is modelled is the empty-catalog guard, the
 * ```` ```python ```` fence cleaning and the shaping of the result.
 */
module MetadataQuery {
  import opened Wrappers
  import opened Text
  import opened Frames
  import opened Catalog
  import opened Fences
  import SqliteQuery

  const InfoTag: string := "[INFO]"
  const WarningTag: string := "[AVISO]"

  const NoMetadataMessage: string :=
    InfoTag + " N\U{E3}o h\U{E1} metadados carregados. " + "Por favor, carregue " + "os arquivos CSV primeiro."

  const PythonOpener: string := Fence + "python"

  /** What `exec` is handed: an assignment of the generated expression. */
  const ResultAssignment: string := "result_exec = "

  /** The `UnboundLocalError` the handler raises when it reads `generated_code` before any assignment. */
  const UnboundCodeError: string :=
    "cannot access local variable 'generated_code' " + "where it is not associated with a value"

  /**
   * What evaluating the generated code left in `result_exec`: a DataFrame, any
   * other value (with its `str()`), `None`, or the text of the exception raised.
   */
  datatype ExecResult = Tabular(frame: Frame) | Value(repr: string) | NoneResult | Raised(error: string)

  /** What the tool does: return a text, or let an exception escape to its caller. */
  datatype ToolOutcome = Returned(msg: string) | Escaped(error: string)

  // ---------------------------------------------------------------------------
  // Messages

  /** Line 89: the warning for a `None` result, quoting the code between fences. */
  function NoResultWarning(code: string): (r: string)
    ensures StartsWith(r, WarningTag)
    ensures EndsWith(r, Fence + code + Fence)
  {
    var head := WarningTag + " O c\U{F3}digo Python foi executado, " + "mas n\U{E3}o retornou um resultado "
      + "expl\U{ED}cito ou reconhec\U{ED}vel. C\U{F3}digo: ";
    assert (head + (Fence + code + Fence))[..|WarningTag|] == WarningTag;
    head + (Fence + code + Fence)
  }

  /** The fenced block the failure message ends with. */
  function CodeBlock(code: string): string {
    "\nC\U{F3}digo gerado: " + Fence + "\n" + code + "\n" + Fence
  }

  /** Line 92: the failure message, carrying the exception's text and the code. */
  function ExecFailureMessage(e: string, code: string): (r: string)
    ensures StartsWith(r, SqliteQuery.ErrorTag)
    ensures Contains(r, e)
    ensures EndsWith(r, CodeBlock(code))
  {
    var head := SqliteQuery.ErrorTag + " Falha ao gerar ou executar " + "o c\U{F3}digo Python para metadados: ";
    assert (head + e + CodeBlock(code))[..|SqliteQuery.ErrorTag|] == SqliteQuery.ErrorTag;
    ContainsMiddle(head, e, CodeBlock(code));
    head + e + CodeBlock(code)
  }

  // ---------------------------------------------------------------------------
  // The generated code

  /** Lines 69-73: the reply stripped, then cleaned of a ```` ```python ```` fence. */
  function GeneratedCode(reply: string): (code: string)
    // The code never has white space at either end.
    ensures code == [] || (!IsSpace(code[0]) && !IsSpace(code[|code| - 1]))
    // A reply mentioning ```python in any case loses every triple backtick; any other is only stripped.
    ensures Contains(Lower(Strip(reply)), PythonOpener) ==> !Contains(code, Fence)
    ensures !Contains(Lower(Strip(reply)), PythonOpener) ==> code == Strip(reply)
  {
    CleanFences(Strip(reply), PythonOpener)
  }

  /** A fenced reply has no white space at its ends, so it is cleaned exactly as it came. */
  lemma FencedReplyUnstripped(reply: string)
    requires reply != [] && reply[0] == '`' && reply[|reply| - 1] == '`'
    ensures GeneratedCode(reply) == CleanFences(reply, PythonOpener)
  {
    StripUnchanged(reply);
  }

  /**
   * As written: a reply fenced with the tag in another case than `python`
   * (```` ```Python ````) keeps the tag in front of the code, which then
   * fails to evaluate.
   */
  lemma OtherCaseTagKept(tag: string, body: string)
    requires Lower(tag) == "python" && tag != "python"
    requires NoBacktick(tag) && NoBacktick(body)
    ensures GeneratedCode(Fence + tag + body + Fence) == Strip(tag + body)
  {
    FencedReplyUnstripped(Fence + tag + body + Fence);
    PythonTag();
    UpperCaseTagKept(tag, body, "python");
  }

  /** A reply fenced exactly as ```` ```python ```` gives the bare code. */
  lemma LowerCaseTagDropped(body: string)
    requires NoBacktick(body)
    ensures GeneratedCode(Fence + "python" + body + Fence) == Strip(body)
  {
    FencedReplyUnstripped(Fence + "python" + body + Fence);
    PythonTag();
    LowerCaseTagRemoved(body, "python");
  }

  lemma PythonTag()
    ensures NoBacktick("python") && Lower("python") == "python"
  {
  }

  // ---------------------------------------------------------------------------
  // Shaping the result

  /**
   * Lines 84-92 after `exec`: a DataFrame becomes its Markdown table
   * (`toMarkdown` is `to_markdown(index=False)`, which may itself raise), any
   * other value its `str()`, `None` the warning, and an exception the failure
   * message.
   */
  function ShapeResult(code: string, result: ExecResult, toMarkdown: Frame -> Result<string, string>): (r: string)
    ensures result.Tabular? && toMarkdown(result.frame).Ok? ==> r == toMarkdown(result.frame).value
    ensures result.Value? ==> r == result.repr
    ensures result.NoneResult? ==> StartsWith(r, WarningTag) && EndsWith(r, Fence + code + Fence)
    ensures result.Raised? ==>
              StartsWith(r, SqliteQuery.ErrorTag) && Contains(r, result.error) && EndsWith(r, CodeBlock(code))
    ensures result.Tabular? && toMarkdown(result.frame).Err? ==>
              StartsWith(r, SqliteQuery.ErrorTag) && Contains(r, toMarkdown(result.frame).error)
              && EndsWith(r, CodeBlock(code))
  {
    match result
    case Tabular(frame) =>
      (match toMarkdown(frame)
       case Ok(md) => md
       case Err(e) => ExecFailureMessage(e, code))
    case Value(repr) => repr
    case NoneResult => NoResultWarning(code)
    case Raised(e) => ExecFailureMessage(e, code)
  }

  /**
   * The tool's own messages are told apart by their tags: the empty-catalog
   * note is `[INFO]`, a `None` result is the one `[AVISO]`, and every failure
   * is `[ERRO]`; none of the latter starts with `[INFO]`.
   */
  lemma OwnMessagesTagged(code: string, result: ExecResult, toMarkdown: Frame -> Result<string, string>)
    requires result.NoneResult? || result.Raised? || (result.Tabular? && toMarkdown(result.frame).Err?)
    ensures StartsWith(NoMetadataMessage, InfoTag)
    ensures var r := ShapeResult(code, result, toMarkdown);
      && !StartsWith(r, InfoTag)
      && (StartsWith(r, WarningTag) <==> result.NoneResult?)
      && (StartsWith(r, SqliteQuery.ErrorTag) <==> !result.NoneResult?)
  {
    assert NoMetadataMessage[..|InfoTag|] == InfoTag;
    var r := ShapeResult(code, result, toMarkdown);
    if result.NoneResult? {
      TagAt(r, WarningTag);
    } else {
      TagAt(r, SqliteQuery.ErrorTag);
    }
    assert InfoTag[1] == 'I' && WarningTag[1] == 'A' && SqliteQuery.ErrorTag[1] == 'E';
  }

  /** A text that starts with a tag has the tag's second character at index 1. */
  lemma TagAt(r: string, tag: string)
    requires |tag| > 1 && StartsWith(r, tag)
    ensures |r| > 1 && r[1] == tag[1]
  {
    assert r[..|tag|][1] == r[1];
  }

  /** A result the tool could not shape is reported with the code that produced it, never silently. */
  lemma UnshapedResultQuotesCode(code: string, result: ExecResult, toMarkdown: Frame -> Result<string, string>)
    requires result.NoneResult? || result.Raised? || (result.Tabular? && toMarkdown(result.frame).Err?)
    ensures Contains(ShapeResult(code, result, toMarkdown), code)
  {
    var r := ShapeResult(code, result, toMarkdown);
    if result.NoneResult? {
      var n := |r| - |Fence + code + Fence|;
      assert r == r[..n] + (Fence + code + Fence);
      ContainsMiddle(r[..n] + Fence, code, Fence);
      assert r[..n] + Fence + code + Fence == r;
    } else {
      var n := |r| - |CodeBlock(code)|;
      var pre := "\nC\U{F3}digo gerado: " + Fence + "\n";
      assert r == r[..n] + CodeBlock(code);
      ContainsMiddle(r[..n] + pre, code, "\n" + Fence);
      assert r[..n] + pre + code + ("\n" + Fence) == r;
    }
  }

  // ---------------------------------------------------------------------------
  // The tool, as written

  /**
   * `metadata_query_tool` with the catalog rows `rows`, the model's reply
   * `predict` (or the text of what it raised), the evaluator `exec` (which sees
   * the catalog) and the Markdown renderer. When the model call raises, the
   * handler reads `generated_code`, which was never assigned, and raises
   * `UnboundLocalError` itself.
   */
  function MetadataQueryTool(rows: seq<MetaRow>, predict: Result<string, string>,
                             exec: (seq<MetaRow>, string) -> ExecResult,
                             toMarkdown: Frame -> Result<string, string>): (r: ToolOutcome)
    ensures rows == [] ==> r == Returned(NoMetadataMessage)
    ensures r.Escaped? <==> rows != [] && predict.Err?
    ensures r.Escaped? ==> r.error == UnboundCodeError
    ensures rows != [] && predict.Ok? ==>
              r.msg == ShapeResult(GeneratedCode(predict.value),
                                   exec(rows, ResultAssignment + GeneratedCode(predict.value)), toMarkdown)
  {
    if rows == [] then Returned(NoMetadataMessage)
    else
      match predict
      case Err(_) => Escaped(UnboundCodeError)
      case Ok(reply) =>
        var code := GeneratedCode(reply);
        Returned(ShapeResult(code, exec(rows, ResultAssignment + code), toMarkdown))
  }

  /** With an empty catalog nothing is generated or evaluated: the answer is the same whatever they would do. */
  lemma EmptyCatalogIgnoresModel(p1: Result<string, string>, p2: Result<string, string>,
                                 x1: (seq<MetaRow>, string) -> ExecResult, x2: (seq<MetaRow>, string) -> ExecResult,
                                 m1: Frame -> Result<string, string>, m2: Frame -> Result<string, string>)
    ensures MetadataQueryTool([], p1, x1, m1) == MetadataQueryTool([], p2, x2, m2)
    ensures MetadataQueryTool([], p1, x1, m1).Returned?
  {
  }

  /** The evaluator only ever sees the cleaned code, as the right-hand side of an assignment. */
  lemma EvaluatorSeesCleanedCode(rows: seq<MetaRow>, reply: string,
                                 exec: (seq<MetaRow>, string) -> ExecResult,
                                 toMarkdown: Frame -> Result<string, string>)
    requires rows != [] && Contains(Lower(Strip(reply)), PythonOpener)
    ensures var r := MetadataQueryTool(rows, Ok(reply), exec, toMarkdown);
            r.Returned? && r.msg == ShapeResult(GeneratedCode(reply), exec(rows, ResultAssignment + GeneratedCode(reply)), toMarkdown)
    ensures !Contains(GeneratedCode(reply), Fence)
  {
  }

  /** As written: a failing model call is not reported, it escapes as `UnboundLocalError`. */
  lemma PredictFailureEscapes(rows: seq<MetaRow>, e: string,
                              exec: (seq<MetaRow>, string) -> ExecResult,
                              toMarkdown: Frame -> Result<string, string>)
    requires rows != []
    ensures MetadataQueryTool(rows, Err(e), exec, toMarkdown) == Escaped(UnboundCodeError)
    ensures MetadataQueryTool(rows, Err(e), exec, toMarkdown) != Returned(ExecFailureMessage(e, ""))
  {
  }

  // ---------------------------------------------------------------------------
  // Corrected: `generated_code` bound before the model is called

  /** The tool with `generated_code = ""` assigned before the `try`: it always returns a text. */
  function MetadataQueryToolCorrected(rows: seq<MetaRow>, predict: Result<string, string>,
                                      exec: (seq<MetaRow>, string) -> ExecResult,
                                      toMarkdown: Frame -> Result<string, string>): (r: string)
    ensures rows != [] && predict.Err? ==>
              StartsWith(r, SqliteQuery.ErrorTag) && Contains(r, predict.error) && EndsWith(r, CodeBlock(""))
  {
    if rows == [] then NoMetadataMessage
    else
      match predict
      case Err(e) => ExecFailureMessage(e, "")
      case Ok(reply) =>
        var code := GeneratedCode(reply);
        ShapeResult(code, exec(rows, ResultAssignment + code), toMarkdown)
  }

  /** Wherever the tool as written returns, the corrected tool returns the same text. */
  lemma CorrectedAgrees(rows: seq<MetaRow>, predict: Result<string, string>,
                        exec: (seq<MetaRow>, string) -> ExecResult,
                        toMarkdown: Frame -> Result<string, string>)
    ensures MetadataQueryTool(rows, predict, exec, toMarkdown).Returned? ==>
              MetadataQueryTool(rows, predict, exec, toMarkdown).msg == MetadataQueryToolCorrected(rows, predict, exec, toMarkdown)
    ensures MetadataQueryTool(rows, predict, exec, toMarkdown).Escaped? ==>
              StartsWith(MetadataQueryToolCorrected(rows, predict, exec, toMarkdown), SqliteQuery.ErrorTag)
  {
  }
}
