/**
 * The post-processing in `sql_generator_tool`: the generator's reply is
 * stripped, cleaned of a ```` ```sql ```` fence when it has one, and returned;
 * a failing generator call becomes an `[ERRO]` message.
 */
module SqlGenerator {
  import opened Wrappers
  import opened Text
  import opened Fences

  const SqlOpener: string := Fence + "sql"
  const GenerationErrorPrefix: string := "[ERRO] Falha ao gerar SQL: "

  /**
   * Lines 76-83. `reply` is what `llm.predict(prompt)` returned, or the text of
   * the exception it raised.
   */
  function PostProcessSql(reply: Result<string, string>): (sql: string)
    // A failing generator is reported, never raised.
    ensures reply.Err? ==> StartsWith(sql, GenerationErrorPrefix)
    // Generated SQL never has white space at either end.
    ensures reply.Ok? ==> sql == [] || (!IsSpace(sql[0]) && !IsSpace(sql[|sql| - 1]))
    // A reply that mentions ```sql in any case comes back without any triple backtick.
    ensures reply.Ok? && Contains(Lower(Strip(reply.value)), SqlOpener) ==> !Contains(sql, Fence)
    // Any other reply is only stripped, plain ``` fences included.
    ensures reply.Ok? && !Contains(Lower(Strip(reply.value)), SqlOpener) ==> sql == Strip(reply.value)
  {
    match reply
    case Err(e) =>
      assert (GenerationErrorPrefix + e)[..|GenerationErrorPrefix|] == GenerationErrorPrefix;
      GenerationErrorPrefix + e
    case Ok(text) => CleanFences(Strip(text), SqlOpener)
  }

  /** A fenced reply has no white space at its ends, so it is cleaned exactly as it came. */
  lemma FencedReplyUnstripped(reply: string)
    requires reply != [] && reply[0] == '`' && reply[|reply| - 1] == '`'
    ensures PostProcessSql(Ok(reply)) == CleanFences(reply, SqlOpener)
    ensures PostProcessSqlCorrected(Ok(reply)) == CleanFencesAnyCase(reply, SqlOpener)
  {
    StripUnchanged(reply);
  }

  /** The statement of the examples below, between line breaks, and stripped. */
  lemma StripStatement()
    ensures Strip("\nSELECT 1\n") == "SELECT 1"
  {
    StripLeftStatement();
    StripRightStatement();
  }

  lemma StripLeftStatement()
    ensures StripLeft("\nSELECT 1\n") == "SELECT 1\n"
  {
    var s := "\nSELECT 1\n";
    assert IsSpace(s[0]);
    assert s[1..] == "SELECT 1\n";
    assert !IsSpace("SELECT 1\n"[0]);
  }

  lemma StripRightStatement()
    ensures StripRight("SELECT 1\n") == "SELECT 1"
  {
    var s := "SELECT 1\n";
    assert IsSpace(s[|s| - 1]);
    assert s[..|s| - 1] == "SELECT 1";
    assert !IsSpace("SELECT 1"[7]);
  }

  lemma StripTaggedStatement()
    ensures Strip("SQL\nSELECT 1\n") == "SQL\nSELECT 1"
  {
    StripLeftTagged();
    StripRightTagged();
  }

  lemma StripLeftTagged()
    ensures StripLeft("SQL\nSELECT 1\n") == "SQL\nSELECT 1\n"
  {
    assert !IsSpace("SQL\nSELECT 1\n"[0]);
  }

  lemma StripRightTagged()
    ensures StripRight("SQL\nSELECT 1\n") == "SQL\nSELECT 1"
  {
    var s := "SQL\nSELECT 1\n";
    assert IsSpace(s[|s| - 1]);
    assert s[..|s| - 1] == "SQL\nSELECT 1";
    assert !IsSpace("SQL\nSELECT 1"[11]);
  }

  /**
   * As written: a reply fenced with the tag in another case than `sql`
   * triggers the cleaning, and the tag stays in front of the statement.
   */
  lemma OtherCaseTagKept(tag: string, body: string)
    requires Lower(tag) == "sql" && tag != "sql"
    requires NoBacktick(tag) && NoBacktick(body)
    ensures PostProcessSql(Ok(Fence + tag + body + Fence)) == Strip(tag + body)
  {
    FencedReplyUnstripped(Fence + tag + body + Fence);
    SqlTag();
    UpperCaseTagKept(tag, body, "sql");
  }

  lemma SqlTag()
    ensures NoBacktick("sql")
  {
  }

  /** As written: ```` ```SQL ```` leaves the word `SQL` in front of the statement. */
  lemma UpperCaseFenceKeepsTag()
    ensures PostProcessSql(Ok(Fence + "SQL" + "\nSELECT 1\n" + Fence)) == "SQL\nSELECT 1"
  {
    ExampleReplyParts();
    OtherCaseTagKept("SQL", "\nSELECT 1\n");
    StripTaggedStatement();
  }

  /** The pieces of the example reply: an upper-case tag and a statement, neither with a backtick. */
  lemma ExampleReplyParts()
    ensures Lower("SQL") == "sql" && "SQL" != "sql"
    ensures NoBacktick("SQL") && NoBacktick("\nSELECT 1\n")
    ensures "SQL" + "\nSELECT 1\n" == "SQL\nSELECT 1\n"
  {
    assert "SQL"[0] != "sql"[0];
  }

  // ---------------------------------------------------------------------------
  // Corrected: the opener is removed in whatever case it was written

  function PostProcessSqlCorrected(reply: Result<string, string>): string {
    match reply
    case Err(e) => GenerationErrorPrefix + e
    case Ok(text) => CleanFencesAnyCase(Strip(text), SqlOpener)
  }

  /** A reply fenced as ```` ```sql ````, ```` ```SQL ```` or ```` ```Sql ```` gives the bare statement. */
  lemma CorrectedDropsTag(tag: string, body: string)
    requires Lower(tag) == "sql" && NoBacktick(body)
    ensures PostProcessSqlCorrected(Ok(Fence + tag + body + Fence)) == Strip(body)
  {
    FencedReplyUnstripped(Fence + tag + body + Fence);
    SqlTag();
    AnyCaseTagRemoved(tag, body, "sql");
  }

  /** The corrected post-processing keeps the guarantee that no triple backtick is left. */
  lemma CorrectedLosesFences(text: string)
    requires Contains(Lower(Strip(text)), SqlOpener)
    ensures !Contains(PostProcessSqlCorrected(Ok(text)), Fence)
  {
    CleanedAnyCaseHasNoFence(Strip(text), SqlOpener);
  }

  /** Corrected: the same ```` ```SQL ```` reply gives the bare statement. */
  lemma CorrectedUpperCaseFence()
    ensures PostProcessSqlCorrected(Ok(Fence + "SQL" + "\nSELECT 1\n" + Fence)) == "SELECT 1"
  {
    ExampleReplyParts();
    CorrectedDropsTag("SQL", "\nSELECT 1\n");
    StripStatement();
  }
}
