/** Quoting a path for a POSIX shell, against the shell's own rules for reading it back. */
module ShellQuote {
  import opened Basics

  // ---- quoting ----

  /** Every single quote becomes: close the quotes, an escaped quote, reopen them. */
  function ReplaceQuotes(s: string): string {
    if s == "" then "" else (if s[0] == '\'' then "'\\''" else [s[0]]) + ReplaceQuotes(s[1..])
  }

  function UnixShellQuote(path: string): string {
    "'" + (ReplaceQuotes(path) + "'")
  }

  function ElevatedRerunHint(exe: string, operation: string): string {
    "sudo" + (" " + (UnixShellQuote(exe) + (" " + operation)))
  }

  // ---- reading: sections 2.2.1, 2.2.2 and 2.3 of the POSIX Shell Command Language ----

  predicate IsBlank(c: char) { c == ' ' || c == '\t' }

  /** Characters that mean something to the shell when they are not quoted. */
  predicate NeedsQuoting(c: char) {
    c in {'|', '&', ';', '<', '>', '(', ')', '$', '`', '"', '\n', '*', '?', '[', '#', '~', '=', '%'}
  }

  datatype Mode = Unquoted | SingleQuoted

  function Grow(word: Option<string>, more: string): Option<string> {
    Some((if word.Some? then word.value else "") + more)
  }

  /**
   * The words of a command line, quotes removed, given the word read so far. `None` when quoting is not
   * closed or an unquoted character would make the shell do anything but read a word.
   */
  function Tokenize(s: string, word: Option<string>, mode: Mode): Option<seq<string>>
    decreases |s|
  {
    if s == "" then
      (if mode.SingleQuoted? then None else if word.Some? then Some([word.value]) else Some([]))
    else if mode.SingleQuoted? then
      (if s[0] == '\'' then Tokenize(s[1..], word, Unquoted) else Tokenize(s[1..], Grow(word, [s[0]]), SingleQuoted))
    else if IsBlank(s[0]) then
      (if word.None? then Tokenize(s[1..], None, Unquoted)
       else
         var rest := Tokenize(s[1..], None, Unquoted);
         if rest.None? then None else Some([word.value] + rest.value))
    else if s[0] == '\'' then Tokenize(s[1..], Grow(word, ""), SingleQuoted)
    else if s[0] == '\\' then
      (if |s| < 2 then None
       else if s[1] == '\n' then Tokenize(s[2..], word, Unquoted)
       else Tokenize(s[2..], Grow(word, [s[1]]), Unquoted))
    else if NeedsQuoting(s[0]) then None
    else Tokenize(s[1..], Grow(word, [s[0]]), Unquoted)
  }

  function Words(line: string): Option<seq<string>> {
    Tokenize(line, None, Unquoted)
  }

  // ---- round trip ----

  lemma QuoteInBody(rest: string, word: string)
    ensures Tokenize("'\\''" + rest, Some(word), SingleQuoted) == Tokenize(rest, Some(word + "'"), SingleQuoted)
  {
    var s, t, u := "'\\''" + rest, "\\''" + rest, "'" + rest;
    var grown := word + "'";
    assert s[0] == '\'' && s[1..] == t;
    assert t[0] == '\\' && t[1] == '\'' && t[2..] == u;
    assert Tokenize(t, Some(word), Unquoted) == Tokenize(u, Some(grown), Unquoted);
    assert u[0] == '\'' && u[1..] == rest;
    assert Grow(Some(grown), "") == Some(grown) by { assert grown + "" == grown; }
  }

  lemma CharInBody(c: char, rest: string, word: string)
    requires c != '\''
    ensures Tokenize([c] + rest, Some(word), SingleQuoted) == Tokenize(rest, Some(word + [c]), SingleQuoted)
  {
    assert ([c] + rest)[1..] == rest;
  }

  lemma QuoteCloses(rest: string, word: string)
    ensures Tokenize("'" + rest, Some(word), SingleQuoted) == Tokenize(rest, Some(word), Unquoted)
  {
    assert ("'" + rest)[1..] == rest;
  }

  /** Inside single quotes the quoted text is read back as the original. */
  lemma {:induction false} QuotedBodyReadsBack(path: string, rest: string, word: string)
    ensures Tokenize(ReplaceQuotes(path) + ("'" + rest), Some(word), SingleQuoted) == Tokenize(rest, Some(word + path), Unquoted)
  {
    hide Tokenize;
    var tail := "'" + rest;
    if path == "" {
      assert ReplaceQuotes(path) + tail == tail;
      QuoteCloses(rest, word);
      assert word + path == word;
    } else {
      var c, more := path[0], path[1..];
      QuotedBodyReadsBack(more, rest, word + [c]);
      assert word + [c] + more == word + path;
      var body := ReplaceQuotes(more) + tail;
      if c == '\'' {
        assert ReplaceQuotes(path) + tail == "'\\''" + body;
        QuoteInBody(body, word);
        assert word + "'" == word + [c];
      } else {
        assert ReplaceQuotes(path) + tail == [c] + body;
        CharInBody(c, body, word);
      }
    }
  }

  lemma QuotedWordReadsBack(path: string, rest: string)
    ensures Tokenize(UnixShellQuote(path) + rest, None, Unquoted) == Tokenize(rest, Some(path), Unquoted)
  {
    var s := UnixShellQuote(path) + rest;
    assert s == "'" + (ReplaceQuotes(path) + ("'" + rest));
    assert s[0] == '\'' && s[1..] == ReplaceQuotes(path) + ("'" + rest);
    assert Grow(None, "") == Some("") by { assert "" + "" == ""; }
    QuotedBodyReadsBack(path, rest, "");
    assert "" + path == path;
  }

  predicate IsPlain(c: char) {
    !IsBlank(c) && c != '\'' && c != '\\' && !NeedsQuoting(c)
  }

  lemma {:induction false} PlainWordReadsBack(u: string, rest: string, word: Option<string>)
    requires u != "" && forall i :: 0 <= i < |u| ==> IsPlain(u[i])
    ensures Tokenize(u + rest, word, Unquoted) == Tokenize(rest, Grow(word, u), Unquoted)
  {
    assert (u + rest)[1..] == u[1..] + rest;
    var grown := Grow(word, [u[0]]);
    if |u| == 1 {
      assert u[1..] + rest == rest && u == [u[0]];
    } else {
      PlainWordReadsBack(u[1..], rest, grown);
      assert u == [u[0]] + u[1..];
      var held := if word.Some? then word.value else "";
      assert (held + [u[0]]) + u[1..] == held + u;
    }
  }

  lemma BlankEndsWord(word: string, rest: string)
    ensures Tokenize(" " + rest, Some(word), Unquoted) ==
              if Words(rest).None? then None else Some([word] + Words(rest).value)
  {
    assert (" " + rest)[1..] == rest;
  }

  /** For every path string the quoted form is read as exactly one word, the path itself. */
  lemma QuoteRoundTrip(path: string)
    ensures Words(UnixShellQuote(path)) == Some([path])
  {
    QuotedWordReadsBack(path, "");
    assert UnixShellQuote(path) + "" == UnixShellQuote(path);
  }

  /**
   * The hint is read as `sudo`, then the original path as one word whatever it contains, then the words of
   * the operation; it is a readable command line exactly when the operation is.
   */
  lemma HintReadsBack(exe: string, operation: string)
    ensures Words(ElevatedRerunHint(exe, operation)) ==
              if Words(operation).None? then None else Some(["sudo", exe] + Words(operation).value)
  {
    var tail := " " + operation;
    var quoted := UnixShellQuote(exe) + tail;
    PlainWordReadsBack("sudo", " " + quoted, None);
    assert "" + "sudo" == "sudo";
    BlankEndsWord("sudo", quoted);
    QuotedWordReadsBack(exe, tail);
    BlankEndsWord(exe, operation);
    if Words(operation).Some? {
      assert ["sudo"] + ([exe] + Words(operation).value) == ["sudo", exe] + Words(operation).value;
    }
  }

  lemma OnePlainWord(u: string)
    requires u != "" && forall i :: 0 <= i < |u| ==> IsPlain(u[i])
    ensures Words(u) == Some([u])
  {
    PlainWordReadsBack(u, "", None);
    assert u + "" == u && "" + u == u;
  }

  lemma TwoPlainWords(u: string, v: string)
    requires u != "" && forall i :: 0 <= i < |u| ==> IsPlain(u[i])
    requires v != "" && forall i :: 0 <= i < |v| ==> IsPlain(v[i])
    ensures Words(u + (" " + v)) == Some([u, v])
  {
    PlainWordReadsBack(u, " " + v, None);
    assert "" + u == u;
    BlankEndsWord(u, v);
    OnePlainWord(v);
    assert [u] + [v] == [u, v];
  }

  /** The operations the updater passes, as it passes them. */
  lemma OperationWords()
    ensures Words("update") == Some(["update"])
    ensures Words("uninstall") == Some(["uninstall"])
    ensures Words("uninstall --purge") == Some(["uninstall", "--purge"])
  {
    hide Words;
    OnePlainWord("update");
    OnePlainWord("uninstall");
    TwoPlainWords("uninstall", "--purge");
    assert "uninstall" + (" " + "--purge") == "uninstall --purge";
  }
}
