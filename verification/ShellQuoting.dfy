/**
 The command line that ExecuteScript sends, and the shell's reading of it. The
 reader follows sections 2.2.1 (escape character), 2.2.2 (single-quotes) and 2.3
 (token recognition) of POSIX.1-2017, Shell Command Language. It gives up (None)
 on an unterminated quote and on unquoted characters with a further meaning.
 */
module ShellQuoting {
  import opened Wrappers

  datatype Credentials = Credentials(password: string, sudoPassword: string, useSudo: bool)

  /** Every single quote becomes quote, backslash, quote, quote. */
  function Escape(script: string): string {
    if script == "" then ""
    else (if script[0] == '\'' then "'\\''" else [script[0]]) + Escape(script[1..])
  }

  function Quote(script: string): string {
    "'" + Escape(script) + "'"
  }

  function Command(creds: Option<Credentials>, script: string): string {
    if creds.Some? && creds.value.useSudo then
      if creds.value.sudoPassword != "" && creds.value.sudoPassword != creds.value.password
      then "echo " + ("'" + creds.value.sudoPassword + "'" + (" | " + ("sudo -S bash -c " + Quote(script))))
      else "sudo bash -c " + Quote(script)
    else "bash -c " + Quote(script)
  }

  // ----- Reading a command line

  datatype Token = Word(text: string) | Pipe

  /** Between tokens, inside the unquoted part of a word, or inside single quotes. */
  datatype Mode = Blank | Bare | Quoted

  /** Unquoted characters that mean more than themselves, apart from those the reader handles. */
  predicate IsSpecial(c: char) {
    || c == '&' || c == ';' || c == '<' || c == '>' || c == '(' || c == ')' || c == '$' || c == '`' || c == '\"'
    || c == '*' || c == '?' || c == '[' || c == '#' || c == '~' || c == '=' || c == '%' || c == '\n'
  }

  predicate IsPlain(c: char) {
    !IsSpecial(c) && c != '\'' && c != '\\' && c != ' ' && c != '\t' && c != '|'
  }

  function Finish(mode: Mode, word: string): seq<Token> {
    if mode.Bare? then [Word(word)] else []
  }

  function Before(tokens: seq<Token>, rest: Option<seq<Token>>): Option<seq<Token>> {
    match rest
    case None => None
    case Some(more) => Some(tokens + more)
  }

  /** The tokens of `s`, read from the given mode with the given part of a word already read. */
  function Read(s: string, mode: Mode, word: string): Option<seq<Token>>
    decreases |s|
  {
    if s == "" then if mode.Quoted? then None else Some(Finish(mode, word))
    else
      var c, t := s[0], s[1..];
      if mode.Quoted? then
        if c == '\'' then Read(t, Bare, word) else Read(t, Quoted, word + [c])
      else if c == '\'' then Read(t, Quoted, word)
      else if c == '\\' then
        if t == "" then None
        else if t[0] == '\n' then Read(t[1..], mode, word)
        else Read(t[1..], Bare, word + [t[0]])
      else if c == ' ' || c == '\t' then Before(Finish(mode, word), Read(t, Blank, ""))
      else if c == '|' then
        if t != "" && t[0] == '|' then None else Before(Finish(mode, word) + [Pipe], Read(t, Blank, ""))
      else if IsSpecial(c) then None
      else Read(t, Bare, word + [c])
  }

  function Tokens(s: string): Option<seq<Token>> {
    Read(s, Blank, "")
  }

  // ----- Quoting

  /** Leaving the quotes, an escaped quote, entering them again. */
  lemma ReadEscapedQuote(tail: string, word: string)
    ensures Read("'\\''" + tail, Quoted, word) == Read(tail, Quoted, word + ['\''])
  {
    var s := "'\\''" + tail;
    var s1, s3 := s[1..], s[1..][1..][1..];
    assert s1 == "\\''" + tail && s3 == "'" + tail && s3[1..] == tail;
    assert Read(s, Quoted, word) == Read(s1, Bare, word);
    assert s1[1..][0] == '\'';
    assert Read(s1, Bare, word) == Read(s3, Bare, word + ['\'']);
    assert Read(s3, Bare, word + ['\'']) == Read(tail, Quoted, word + ['\'']);
  }

  /** Inside the quotes, the escaped script and the closing quote add exactly the script to the word. */
  lemma {:induction false} ReadEscaped(script: string, rest: string, word: string)
    ensures Read(Escape(script) + "'" + rest, Quoted, word) == Read(rest, Bare, word + script)
    decreases |script|
  {
    if script == "" {
      assert (Escape(script) + "'" + rest)[1..] == rest;
      assert word + script == word;
    } else {
      var tail := Escape(script[1..]) + "'" + rest;
      ReadEscaped(script[1..], rest, word + [script[0]]);
      assert word + [script[0]] + script[1..] == word + script;
      if script[0] == '\'' {
        ReadEscapedQuote(tail, word);
        assert Escape(script) + "'" + rest == "'\\''" + tail;
      } else {
        assert Escape(script) + "'" + rest == [script[0]] + tail;
      }
    }
  }

  /** A text without quotes, between single quotes, is taken literally. */
  lemma {:induction false} ReadLiteral(text: string, rest: string, word: string)
    requires '\'' !in text
    ensures Read(text + "'" + rest, Quoted, word) == Read(rest, Bare, word + text)
    decreases |text|
  {
    if text == "" {
      assert (text + "'" + rest)[1..] == rest;
      assert word + text == word;
    } else {
      ReadLiteral(text[1..], rest, word + [text[0]]);
      assert (text + "'" + rest)[1..] == text[1..] + "'" + rest;
      assert word + [text[0]] + text[1..] == word + text;
    }
  }

  lemma {:induction false} ReadPlain(text: string, rest: string, mode: Mode, word: string)
    requires !mode.Quoted? && forall i :: 0 <= i < |text| ==> IsPlain(text[i])
    ensures Read(text + rest, mode, word) ==
      if text == "" then Read(rest, mode, word) else Read(rest, Bare, word + text)
    decreases |text|
  {
    if text == "" {
      assert text + rest == rest;
    } else {
      ReadPlain(text[1..], rest, Bare, word + [text[0]]);
      assert (text + rest)[1..] == text[1..] + rest;
      assert word + [text[0]] + text[1..] == word + text;
      assert text[1..] == "" ==> word + text == word + [text[0]];
      assert IsPlain((text + rest)[0]);
      assert Read(text + rest, mode, word) == Read(text[1..] + rest, Bare, word + [text[0]]);
    }
  }

  /** A plain word followed by a blank. */
  lemma ReadWord(text: string, rest: string, tokens: seq<Token>)
    requires text != "" && forall i :: 0 <= i < |text| ==> IsPlain(text[i])
    requires Tokens(rest) == Some(tokens)
    ensures Tokens(text + " " + rest) == Some([Word(text)] + tokens)
  {
    ReadPlain(text, " " + rest, Blank, "");
    assert text + " " + rest == text + (" " + rest);
    assert "" + text == text;
    assert (" " + rest)[1..] == rest;
  }

  /** The part common to all commands. */
  lemma ReadBash(script: string)
    ensures Tokens("bash -c " + Quote(script)) == Some([Word("bash"), Word("-c"), Word(script)])
  {
    QuotedScriptIsOneWord(script);
    ReadWord("-c", Quote(script), [Word(script)]);
    assert [Word("-c")] + [Word(script)] == [Word("-c"), Word(script)];
    ReadWord("bash", "-c" + " " + Quote(script), [Word("-c"), Word(script)]);
    assert "bash" + " " + ("-c" + " " + Quote(script)) == "bash -c " + Quote(script);
    assert [Word("bash")] + [Word("-c"), Word(script)] == [Word("bash"), Word("-c"), Word(script)];
  }

  /** The quoted script is exactly one word, equal to the script. */
  lemma QuotedScriptIsOneWord(script: string)
    ensures Tokens(Quote(script)) == Some([Word(script)])
  {
    ReadEscaped(script, "", "");
    assert Quote(script)[1..] == Escape(script) + "'" + "";
    assert "" + script == script;
  }

  /** Without a separate sudo password the shell runs bash -c on the original script, whatever it contains. */
  lemma CommandRunsTheScript(creds: Option<Credentials>, script: string)
    requires creds.Some? && creds.value.useSudo ==>
      creds.value.sudoPassword == "" || creds.value.sudoPassword == creds.value.password
    ensures Tokens(Command(creds, script)) == Some(
      (if creds.Some? && creds.value.useSudo then [Word("sudo")] else []) + [Word("bash"), Word("-c"), Word(script)])
  {
    ReadBash(script);
    var bash := "bash -c " + Quote(script);
    var tokens := [Word("bash"), Word("-c"), Word(script)];
    ReadWord("sudo", bash, tokens);
    assert "sudo" + " " + bash == "sudo bash -c " + Quote(script);
    assert [] + tokens == tokens;
  }

  /** With a separate sudo password free of single quotes, the pipeline is the intended one. */
  lemma CommandPassesThePassword(creds: Credentials, script: string)
    requires creds.useSudo && creds.sudoPassword != "" && creds.sudoPassword != creds.password
    requires '\'' !in creds.sudoPassword
    ensures Tokens(Command(Some(creds), script)) == Some(
      [Word("echo"), Word(creds.sudoPassword), Pipe, Word("sudo"), Word("-S"), Word("bash"), Word("-c"), Word(script)])
  {
    var p := creds.sudoPassword;
    var sudo := "sudo -S bash -c " + Quote(script);
    var after := [Word("sudo"), Word("-S"), Word("bash"), Word("-c"), Word(script)];
    ReadSudo(script);
    ReadEcho(p, sudo, after);
    assert "echo" + " " == "echo ";
    assert [Word("echo"), Word(p), Pipe] + after ==
      [Word("echo"), Word(p), Pipe, Word("sudo"), Word("-S"), Word("bash"), Word("-c"), Word(script)];
  }

  lemma ReadSudo(script: string)
    ensures Tokens("sudo -S bash -c " + Quote(script)) ==
      Some([Word("sudo"), Word("-S"), Word("bash"), Word("-c"), Word(script)])
  {
    var bash := "bash -c " + Quote(script);
    var run := [Word("bash"), Word("-c"), Word(script)];
    ReadBash(script);
    ReadWord("-S", bash, run);
    ReadWord("sudo", "-S" + " " + bash, [Word("-S")] + run);
    assert "sudo" + " " + ("-S" + " " + bash) == "sudo -S bash -c " + Quote(script);
    assert [Word("sudo")] + ([Word("-S")] + run) == [Word("sudo"), Word("-S"), Word("bash"), Word("-c"), Word(script)];
  }

  lemma ReadEchoWord(rest: string, tokens: seq<Token>)
    requires Tokens(rest) == Some(tokens)
    ensures Tokens("echo" + " " + rest) == Some([Word("echo")] + tokens)
  {
    ReadWord("echo", rest, tokens);
  }

  lemma ReadEcho(p: string, rest: string, tokens: seq<Token>)
    requires '\'' !in p && Tokens(rest) == Some(tokens)
    ensures Tokens("echo" + " " + ("'" + p + "'" + (" | " + rest))) == Some([Word("echo"), Word(p), Pipe] + tokens)
  {
    var operand := "'" + p + "'" + (" | " + rest);
    assert operand[1..] == p + "'" + (" | " + rest);
    AfterPassword(p, rest);
    ReadLiteral(p, " | " + rest, "");
    assert "" + p == p;
    ReadEchoWord(operand, [Word(p), Pipe] + tokens);
    assert [Word("echo")] + ([Word(p), Pipe] + tokens) == [Word("echo"), Word(p), Pipe] + tokens;
  }

  lemma AfterPassword(p: string, sudo: string)
    ensures Read(" | " + sudo, Bare, p) == Before([Word(p), Pipe], Tokens(sudo))
  {
    var s := " | " + sudo;
    var s1, s2 := s[1..], s[1..][1..];
    assert s1 == "| " + sudo && s2 == " " + sudo && s2[1..] == sudo;
    assert Read(s, Bare, p) == Before([Word(p)], Read(s1, Blank, ""));
    assert Read(s1, Blank, "") == Before([] + [Pipe], Read(s2, Blank, ""));
    assert Read(s2, Blank, "") == Before([], Tokens(sudo));
    if Tokens(sudo).Some? {
      var v := Tokens(sudo).value;
      assert [Word(p)] + ([] + [Pipe] + ([] + v)) == [Word(p), Pipe] + v;
    }
  }

  // ----- The password operand

  function QuoteCount(s: string): nat {
    if s == "" then 0 else (if s[0] == '\'' then 1 else 0) + QuoteCount(s[1..])
  }

  function TextLength(tokens: seq<Token>): nat {
    if tokens == [] then 0
    else (match tokens[0] case Word(text) => |text| case Pipe => 0) + TextLength(tokens[1..])
  }

  lemma {:induction false} TextLengthConcat(a: seq<Token>, b: seq<Token>)
    ensures TextLength(a + b) == TextLength(a) + TextLength(b)
  {
    if a == [] {
      assert a + b == b;
    } else {
      assert (a + b)[1..] == a[1..] + b;
      TextLengthConcat(a[1..], b);
    }
  }

  lemma FinishLength(mode: Mode, word: string)
    ensures TextLength(Finish(mode, word)) <= |word| && TextLength(Finish(mode, word) + [Pipe]) <= |word|
  {
    TextLengthConcat(Finish(mode, word), [Pipe]);
    assert [Pipe][1..] == [] && [Word(word)][1..] == [];
  }

  /** No quote character survives for free: reading yields at most one character per non-quote character. */
  lemma {:induction false} ReadLoses(s: string, mode: Mode, word: string)
    ensures Read(s, mode, word).Some? ==>
      TextLength(Read(s, mode, word).value) + QuoteCount(s) <= |word| + |s|
    decreases |s|
  {
    FinishLength(mode, word);
    if s != "" {
      var c, t := s[0], s[1..];
      if mode.Quoted? {
        ReadLoses(t, if c == '\'' then Bare else Quoted, if c == '\'' then word else word + [c]);
      } else if c == '\'' {
        ReadLoses(t, Quoted, word);
      } else if c == '\\' {
        if t != "" {
          ReadLoses(t[1..], if t[0] == '\n' then mode else Bare, if t[0] == '\n' then word else word + [t[0]]);
        }
      } else if c == ' ' || c == '\t' || c == '|' {
        ReadLoses(t, Blank, "");
        var rest := Read(t, Blank, "");
        if rest.Some? {
          TextLengthConcat(Finish(mode, word), rest.value);
          TextLengthConcat(Finish(mode, word) + [Pipe], rest.value);
        }
      } else {
        ReadLoses(t, Bare, word + [c]);
      }
    }
  }

  lemma {:induction false} QuoteCountOf(text: string)
    ensures QuoteCount(text + "'") == QuoteCount(text) + 1
    ensures QuoteCount(text) == 0 <==> '\'' !in text
  {
    if text == "" {
      assert text + "'" == "'" && "'"[1..] == "";
    } else {
      QuoteCountOf(text[1..]);
      assert (text + "'")[1..] == text[1..] + "'";
    }
  }

  /** The sudo password is put between quotes unescaped: it reaches echo unchanged exactly when it holds no quote. */
  lemma PasswordIntactExactlyWithoutQuotes(password: string)
    ensures Tokens("'" + password + "'") == Some([Word(password)]) <==> '\'' !in password
  {
    var s := "'" + password + "'";
    assert s[1..] == password + "'" && password + "'" == password + "'" + "";
    QuoteCountOf(password);
    if '\'' !in password {
      ReadLiteral(password, "", "");
      assert "" + password == password;
    } else {
      ReadLoses(s, Blank, "");
      assert [Word(password)][1..] == [];
      assert TextLength([Word(password)]) == |password|;
    }
  }
}
