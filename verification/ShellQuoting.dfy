/**
 The start-up command of a connection that asks for a remote directory: a printed `cd` line whose
 reader is the POSIX shell.  `Lex` reads one command line by the rules of the Shell Command
 Language in POSIX.1-2017: section 2.2.1 for the backslash and section 2.2.2 for single quotes.
 */
module ShellQuoting {

  datatype Option<+T> = None | Some(value: T)

  // ----- printing -----

  /** Every single quote becomes: end the quotes, an escaped quote, start the quotes again. */
  function QuoteReplaced(directory: string): string {
    if directory == "" then ""
    else (if directory[0] == '\'' then "'\\''" else [directory[0]]) + QuoteReplaced(directory[1..])
  }

  function CdLine(directory: string): string {
    "cd -- '" + QuoteReplaced(directory) + "'\n"
  }

  /** The command sent when the terminal opens. */
  function StartupCommand(remoteDirectory: string, startupCommand: string): string {
    if remoteDirectory == "" then startupCommand else CdLine(remoteDirectory) + startupCommand
  }

  // ----- reading -----

  /** The words read so far, and the word in progress if one has started. */
  datatype Reader = Reader(words: seq<string>, word: Option<string>)
  {
    function Add(c: char): Reader {
      Reader(words, Some((if word.Some? then word.value else "") + [c]))
    }

    /** A quoting character starts a word even if nothing is added to it. */
    function Begin(): Reader {
      if word.Some? then this else Reader(words, Some(""))
    }

    function Finish(): Reader {
      if word.Some? then Reader(words + [word.value], None) else this
    }
  }

  /** The words of the first command line and the text after its newline. */
  datatype Line = Line(words: seq<string>, rest: string)

  /** Characters that an unquoted word of a simple command can consist of without being special to the shell. */
  predicate Ordinary(c: char) {
    'a' <= c <= 'z' || 'A' <= c <= 'Z' || '0' <= c <= '9' || c in {'-', '_', '.', '/', ',', '+', ':', '@', '%'}
  }

  /**
   Reads a line outside quotes.  None means the text is not a line of plain, backslash-escaped and
   single-quoted characters: it needs some other rule, or it ends inside quotes.
   */
  function LexUnquoted(text: string, reader: Reader): Option<Line>
    decreases |text|
  {
    if text == "" then None
    else if text[0] == '\n' then Some(Line(reader.Finish().words, text[1..]))
    else if text[0] == ' ' || text[0] == '\t' then LexUnquoted(text[1..], reader.Finish())
    else if text[0] == '\'' then LexQuoted(text[1..], reader.Begin())
    else if text[0] == '\\' then
      if |text| == 1 then None
      else if text[1] == '\n' then LexUnquoted(text[2..], reader)
      else LexUnquoted(text[2..], reader.Add(text[1]))
    else if Ordinary(text[0]) then LexUnquoted(text[1..], reader.Add(text[0]))
    else None
  }

  /** Inside single quotes every character but the closing quote is itself. */
  function LexQuoted(text: string, reader: Reader): Option<Line>
    decreases |text|
  {
    if text == "" then None
    else if text[0] == '\'' then LexUnquoted(text[1..], reader)
    else LexQuoted(text[1..], reader.Add(text[0]))
  }

  function Lex(text: string): Option<Line> {
    LexUnquoted(text, Reader([], None))
  }

  // ----- what the shell reads is what was meant -----

  /** Inside the quotes, the replaced text reads as the directory and stays inside the quotes. */
  lemma {:induction false} ReadsReplaced(directory: string, words: seq<string>, word: string, tail: string)
    ensures LexQuoted(QuoteReplaced(directory) + tail, Reader(words, Some(word)))
         == LexQuoted(tail, Reader(words, Some(word + directory)))
    decreases |directory|
  {
    if directory == "" {
      assert QuoteReplaced(directory) + tail == tail;
      assert word + directory == word;
    } else {
      var c, rest := directory[0], QuoteReplaced(directory[1..]) + tail;
      assert word + directory == (word + [c]) + directory[1..];
      ReadsReplaced(directory[1..], words, word + [c], tail);
      if c == '\'' {
        assert QuoteReplaced(directory) + tail == "'\\''" + rest;
        ReadsEscapedQuote(rest, words, word);
      } else {
        assert QuoteReplaced(directory) + tail == [c] + rest;
        assert ([c] + rest)[1..] == rest;
      }
    }
  }

  lemma {:induction false} ReadsEscapedQuote(rest: string, words: seq<string>, word: string)
    ensures LexQuoted("'\\''" + rest, Reader(words, Some(word))) == LexQuoted(rest, Reader(words, Some(word + ['\''])))
  {
    var text := "'\\''" + rest;
    var escaped := "\\''" + rest;
    assert text[1..] == escaped;
    assert escaped[2..] == "'" + rest;
    assert ("'" + rest)[1..] == rest;
    var reader := Reader(words, Some(word));
    assert LexQuoted(text, reader) == LexUnquoted(escaped, reader);
    assert LexUnquoted(escaped, reader) == LexUnquoted("'" + rest, reader.Add('\''));
    assert LexUnquoted("'" + rest, reader.Add('\'')) == LexQuoted(rest, reader.Add('\'').Begin());
  }

  lemma {:induction false} ReadsOrdinary(plain: string, words: seq<string>, word: string, tail: string)
    requires forall k :: 0 <= k < |plain| ==> Ordinary(plain[k])
    requires plain != ""
    ensures LexUnquoted(plain + " " + tail, Reader(words, if word == "" then None else Some(word)))
         == LexUnquoted(tail, Reader(words + [word + plain], None))
    decreases |plain|
  {
    var text := plain + " " + tail;
    assert text[1..] == plain[1..] + " " + tail;
    var reader := Reader(words, if word == "" then None else Some(word));
    assert reader.Add(plain[0]) == Reader(words, Some(word + [plain[0]]));
    if |plain| == 1 {
      assert text[1..] == " " + tail && (" " + tail)[1..] == tail;
      assert word + plain == word + [plain[0]];
    } else {
      ReadsOrdinary(plain[1..], words, word + [plain[0]], tail);
      assert (word + [plain[0]]) + plain[1..] == word + plain;
    }
  }

  /**
   For every remote directory, the first line of the start-up command reads as the words `cd`,
   `--` and the directory, and what follows the line is the configured command, untouched.  Without
   a remote directory the configured command is all.
   */
  lemma {:induction false} StartupCommandReadsBack(remoteDirectory: string, startupCommand: string)
    ensures remoteDirectory != "" ==>
      Lex(StartupCommand(remoteDirectory, startupCommand)) == Some(Line(["cd", "--", remoteDirectory], startupCommand))
    ensures remoteDirectory == "" ==> StartupCommand(remoteDirectory, startupCommand) == startupCommand
  {
    if remoteDirectory == "" {
      return;
    }
    var afterQuote := QuoteReplaced(remoteDirectory) + ("'\n" + startupCommand);
    StartupCommandParts(remoteDirectory, startupCommand);
    ReadsOrdinary("cd", [], "", "--" + " " + ("'" + afterQuote));
    assert "" + "cd" == "cd" && [] + ["cd"] == ["cd"];
    ReadsOrdinary("--", ["cd"], "", "'" + afterQuote);
    assert "" + "--" == "--" && ["cd"] + ["--"] == ["cd", "--"];
    ReadsQuoted(remoteDirectory, ["cd", "--"], startupCommand);
    assert ["cd", "--"] + [remoteDirectory] == ["cd", "--", remoteDirectory];
  }

  lemma {:induction false} StartupCommandParts(remoteDirectory: string, startupCommand: string)
    requires remoteDirectory != ""
    ensures StartupCommand(remoteDirectory, startupCommand)
         == "cd" + " " + ("--" + " " + ("'" + (QuoteReplaced(remoteDirectory) + ("'\n" + startupCommand))))
  {
    var replaced := QuoteReplaced(remoteDirectory);
    assert "cd -- '" == "cd" + " " + ("--" + " " + "'");
    Regroup("cd" + " ", "--" + " ", "'", replaced, "'\n", startupCommand);
  }

  lemma {:induction false} Regroup(a: string, b: string, c: string, d: string, e: string, f: string)
    ensures (a + (b + c)) + d + e + f == a + (b + (c + (d + (e + f))))
  {
  }

  /** A single-quoted word at the end of the line. */
  lemma {:induction false} ReadsQuoted(directory: string, words: seq<string>, rest: string)
    ensures LexUnquoted("'" + (QuoteReplaced(directory) + ("'\n" + rest)), Reader(words, None)) == Some(Line(words + [directory], rest))
  {
    var afterQuote := QuoteReplaced(directory) + ("'\n" + rest);
    assert ("'" + afterQuote)[1..] == afterQuote;
    ReadsReplaced(directory, words, "", "'\n" + rest);
    assert "" + directory == directory;
    ReadsLineEnd(words, directory, rest);
  }

  lemma {:induction false} ReadsLineEnd(words: seq<string>, word: string, rest: string)
    ensures LexQuoted("'\n" + rest, Reader(words, Some(word))) == Some(Line(words + [word], rest))
  {
    var text := "'\n" + rest;
    assert text[1..] == "\n" + rest;
    assert ("\n" + rest)[1..] == rest;
  }

  /** Different directories are never printed alike. */
  lemma {:induction false} QuotingIsInjective(a: string, b: string, startupCommand: string)
    requires a != "" && b != "" && StartupCommand(a, startupCommand) == StartupCommand(b, startupCommand)
    ensures a == b
  {
    StartupCommandReadsBack(a, startupCommand);
    StartupCommandReadsBack(b, startupCommand);
  }
}
