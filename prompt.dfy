// The yes/no confirmation prompt: standard input as a stream of lines, the
// normalisation of one answer (trim white space, lower-case) and the
// read-classify-reprompt loop over it.

module Prompt {
  import opened Wrappers

  // ---------------------------------------------------------------------
  // Normalising one line

  /** The white-space test used when trimming a line: the Unicode White_Space code points. */
  predicate IsSpace(c: char)
  {
    c == ' ' || c == '\t' || c == '\n' || c == '\U{000B}' || c == '\U{000C}' || c == '\r' ||
    c == '\U{0085}' || c == '\U{00A0}' || c == '\U{1680}' ||
    ('\U{2000}' <= c <= '\U{200A}') ||
    c == '\U{2028}' || c == '\U{2029}' || c == '\U{202F}' || c == '\U{205F}' || c == '\U{3000}'
  }

  ghost predicate AllSpace(s: string)
  {
    forall i :: 0 <= i < |s| ==> IsSpace(s[i])
  }

  /** Drops leading white space. */
  function TrimLeft(s: string): string
  {
    if s == [] || !IsSpace(s[0]) then s else TrimLeft(s[1..])
  }

  /** Drops trailing white space. */
  function TrimRight(s: string): string
  {
    if s == [] || !IsSpace(s[|s| - 1]) then s else TrimRight(s[..|s| - 1])
  }

  /** TrimLeft removes exactly the leading run of white space. */
  lemma {:induction false} TrimLeftSpec(s: string)
    ensures var r := TrimLeft(s);
      |r| <= |s| && r == s[|s| - |r|..] && AllSpace(s[..|s| - |r|]) &&
      (r != [] ==> !IsSpace(r[0]))
  {
    if s != [] && IsSpace(s[0]) {
      var t := s[1..];
      TrimLeftSpec(t);
      var r := TrimLeft(t);
      assert TrimLeft(s) == r;
      assert r == s[|s| - |r|..] by {
        assert t[|t| - |r|..] == s[|s| - |r|..];
      }
      var dropped := s[..|s| - |r|];
      assert dropped == [s[0]] + t[..|t| - |r|];
      forall i | 0 <= i < |dropped|
        ensures IsSpace(dropped[i])
      {
        if i > 0 {
          assert dropped[i] == t[..|t| - |r|][i - 1];
        }
      }
    }
  }

  /** TrimRight removes exactly the trailing run of white space. */
  lemma {:induction false} TrimRightSpec(s: string)
    ensures var r := TrimRight(s);
      |r| <= |s| && r == s[..|r|] && AllSpace(s[|r|..]) &&
      (r != [] ==> !IsSpace(r[|r| - 1]))
  {
    if s != [] && IsSpace(s[|s| - 1]) {
      var t := s[..|s| - 1];
      TrimRightSpec(t);
      var r := TrimRight(t);
      assert TrimRight(s) == r;
      assert r == s[..|r|] by {
        assert t[..|r|] == s[..|r|];
      }
      var dropped := s[|r|..];
      assert dropped == t[|r|..] + [s[|s| - 1]];
      forall i | 0 <= i < |dropped|
        ensures IsSpace(dropped[i])
      {
        if i < |dropped| - 1 {
          assert dropped[i] == t[|r|..][i];
        }
      }
    }
  }

  /** Drops white space at both ends. */
  function Trim(s: string): string
  {
    TrimRight(TrimLeft(s))
  }

  function LowerChar(c: char): char
  {
    if 'A' <= c <= 'Z' then (c as int - 'A' as int + 'a' as int) as char else c
  }

  /** Lower-cases the ASCII letters of `s`. */
  function Lower(s: string): (r: string)
    ensures |r| == |s|
  {
    if s == [] then [] else [LowerChar(s[0])] + Lower(s[1..])
  }

  /** Lower works character by character. */
  lemma {:induction false} LowerSpec(s: string)
    ensures forall i :: 0 <= i < |s| ==> Lower(s)[i] == LowerChar(s[i])
  {
    if s != [] {
      LowerSpec(s[1..]);
      assert forall i :: 1 <= i < |s| ==> Lower(s)[i] == Lower(s[1..])[i - 1];
    }
  }

  datatype Answer = Yes | No | Invalid

  /** What a normalised token means. */
  function Token(t: string): Answer
  {
    if t == "y" || t == "yes" then Yes
    else if t == "n" || t == "no" || t == "" then No
    else Invalid
  }

  /** What one line read from the terminal means. */
  function Classify(line: string): Answer
  {
    Token(Lower(Trim(line)))
  }

  /**
    * Trimming gives back the word between two runs of white space,
    * whatever those runs are.
    */
  lemma {:induction false} TrimPadded(pre: string, word: string, post: string)
    requires AllSpace(pre) && AllSpace(post)
    requires word != [] ==> !IsSpace(word[0]) && !IsSpace(word[|word| - 1])
    ensures Trim(pre + word + post) == word
  {
    var s := pre + word + post;
    if pre == [] {
      if word == [] {
        TrimLeftAllSpace(post);
        assert s == post;
      } else {
        assert s == word + post;
        assert TrimLeft(s) == s;
        TrimRightPadded(word, post);
      }
    } else {
      assert s[1..] == pre[1..] + word + post;
      TrimPadded(pre[1..], word, post);
      assert TrimLeft(s) == TrimLeft(s[1..]);
      TrimLeftPadded(pre[1..], word, post);
    }
  }

  lemma {:induction false} TrimLeftAllSpace(s: string)
    requires AllSpace(s)
    ensures TrimLeft(s) == []
  {
    if s != [] {
      TrimLeftAllSpace(s[1..]);
    }
  }

  lemma {:induction false} TrimLeftPadded(pre: string, word: string, post: string)
    requires AllSpace(pre) && AllSpace(post)
    requires word != [] ==> !IsSpace(word[0])
    ensures TrimLeft(pre + word + post) == TrimLeft(word + post)
  {
    if pre != [] {
      assert (pre + word + post)[1..] == pre[1..] + word + post;
      TrimLeftPadded(pre[1..], word, post);
    } else {
      assert pre + word + post == word + post;
    }
  }

  lemma {:induction false} TrimRightPadded(word: string, post: string)
    requires AllSpace(post)
    requires word != [] && !IsSpace(word[|word| - 1])
    ensures TrimRight(word + post) == word
  {
    var s := word + post;
    if post == [] {
      assert s == word;
    } else {
      assert s[..|s| - 1] == word + post[..|post| - 1];
      TrimRightPadded(word, post[..|post| - 1]);
    }
  }

  /**
    * A line is classified by the word it holds, case aside: surrounding white
    * space (the line terminator included) does not change the answer.
    */
  lemma ClassifyPadded(pre: string, word: string, post: string)
    requires AllSpace(pre) && AllSpace(post)
    requires word != [] ==> !IsSpace(word[0]) && !IsSpace(word[|word| - 1])
    ensures Classify(pre + word + post) == Token(Lower(word))
  {
    TrimPadded(pre, word, post);
  }

  /** Upper case and surrounding white space still make a yes. */
  lemma ClassifyYesExample()
    ensures Classify(" YES\r\n") == Yes
  {
    TrimPadded(" ", "YES", "\r\n");
    assert " " + "YES" + "\r\n" == " YES\r\n";
    assert Lower("YES") == "yes";
  }

  // ---------------------------------------------------------------------
  // Standard input as a stream of lines

  datatype ReadResult = Line(text: string, rest: seq<char>) | Failure

  /**
    * Reading up to and including the next line feed. Without a line feed
    * left, the read fails (end of input): the partial text is not a line.
    */
  function ReadLine(s: seq<char>): (r: ReadResult)
    ensures r.Line? ==> |r.rest| < |s|
  {
    if s == [] then Failure
    else if s[0] == '\n' then Line([s[0]], s[1..])
    else
      match ReadLine(s[1..])
      case Failure => Failure
      case Line(t, rest) => Line([s[0]] + t, rest)
  }

  /**
    * A successful read returns the input up to and including its first line
    * feed, and leaves the rest; a read fails exactly when no line feed is left.
    */
  lemma {:induction false} ReadLineSpec(s: seq<char>)
    ensures var r := ReadLine(s);
      (r.Line? ==>
        r.text != [] && r.text + r.rest == s &&
        r.text[|r.text| - 1] == '\n' && '\n' !in r.text[..|r.text| - 1]) &&
      (r.Failure? <==> '\n' !in s)
  {
    ReadLineReturnsLine(s);
    ReadLineFailsIff(s);
  }

  lemma {:induction false} ReadLineReturnsLine(s: seq<char>)
    ensures var r := ReadLine(s);
      r.Line? ==>
        r.text != [] && r.text + r.rest == s &&
        r.text[|r.text| - 1] == '\n' && '\n' !in r.text[..|r.text| - 1]
  {
    if s != [] && s[0] != '\n' {
      ReadLineReturnsLine(s[1..]);
      var r := ReadLine(s[1..]);
      if r.Line? {
        var t := [s[0]] + r.text;
        assert ReadLine(s) == Line(t, r.rest);
        assert t + r.rest == s by {
          assert s == [s[0]] + s[1..];
        }
        assert t[|t| - 1] == r.text[|r.text| - 1];
        assert '\n' !in t[..|t| - 1] by {
          assert t[..|t| - 1] == [s[0]] + r.text[..|r.text| - 1];
        }
      }
    }
  }

  lemma {:induction false} ReadLineFailsIff(s: seq<char>)
    ensures ReadLine(s).Failure? <==> '\n' !in s
  {
    if s != [] && s[0] != '\n' {
      ReadLineFailsIff(s[1..]);
      assert s == [s[0]] + s[1..];
    }
  }

  /** A complete line followed by anything reads as that line. */
  lemma {:induction false} ReadLineOf(line: string, rest: seq<char>)
    requires line != [] && line[|line| - 1] == '\n' && '\n' !in line[..|line| - 1]
    ensures ReadLine(line + rest) == Line(line, rest)
  {
    var s := line + rest;
    assert s[0] == line[0];
    if line[0] == '\n' {
      assert s[1..] == rest;
    } else {
      var tail := line[1..];
      assert |line| > 1;
      assert tail[..|tail| - 1] == line[..|line| - 1][1..];
      ReadLineOf(tail, rest);
      assert s[1..] == tail + rest;
      assert [line[0]] + tail == line;
    }
  }

  /** The complete lines of the stream, in order. */
  function Lines(s: seq<char>): seq<string>
    decreases |s|
  {
    match ReadLine(s)
    case Failure => []
    case Line(t, rest) => [t] + Lines(rest)
  }

  /** Standard input: the text not read yet; after it the stream ends with an error. */
  class Stdin {
    var input: seq<char>

    constructor (text: seq<char>)
      ensures input == text
    {
      input := text;
    }

    /** The line-oriented read used by every prompt; None stands for the read error. */
    method ReadString() returns (line: Option<string>)
      modifies this
      ensures match ReadLine(old(input))
        case Line(t, rest) => line == Some(t) && input == rest
        case Failure => line == None && input == []
    {
      match ReadLine(input)
      case Line(t, rest) =>
        line := Some(t);
        input := rest;
      case Failure =>
        line := None;
        input := [];
    }
  }

  // ---------------------------------------------------------------------
  // The confirmation loop

  /** The prompt's answer and the input left after it. */
  datatype Reply = Reply(yes: bool, rest: seq<char>)

  /**
    * The prompt's meaning over the remaining input: read a line; on a read
    * error answer no; on y/yes answer yes; on n/no/empty answer no; on
    * anything else ask again.
    */
  function Confirmation(s: seq<char>): Reply
    decreases |s|
  {
    match ReadLine(s)
    case Failure => Reply(false, [])
    case Line(t, rest) =>
      match Classify(t)
      case Yes => Reply(true, rest)
      case No => Reply(false, rest)
      case Invalid => Confirmation(rest)
  }

  /** The prompt only consumes input, from the front: what it leaves is a suffix of what it found. */
  lemma {:induction false} ConfirmationConsumesPrefix(s: seq<char>)
    ensures var r := Confirmation(s);
      |r.rest| <= |s| && r.rest == s[|s| - |r.rest|..]
    decreases |s|
  {
    ReadLineSpec(s);
    match ReadLine(s)
    case Failure =>
    case Line(t, rest) =>
      assert rest == s[|t|..];
      if Classify(t) == Invalid {
        ConfirmationConsumesPrefix(rest);
      }
  }

  /** The first line holding a valid answer decides; with none, the answer is no. */
  function FirstVerdict(lines: seq<string>): bool
  {
    if lines == [] then false
    else match Classify(lines[0])
      case Yes => true
      case No => false
      case Invalid => FirstVerdict(lines[1..])
  }

  /** The prompt answers with the first valid line of the input, or no if there is none. */
  lemma {:induction false} ConfirmationIsFirstVerdict(s: seq<char>)
    ensures Confirmation(s).yes == FirstVerdict(Lines(s))
    decreases |s|
  {
    match ReadLine(s)
    case Failure =>
    case Line(t, rest) =>
      assert Lines(s) == [t] + Lines(rest);
      assert Lines(s)[1..] == Lines(rest);
      if Classify(t) == Invalid {
        ConfirmationIsFirstVerdict(rest);
      }
  }

  /**
    * FirstVerdict is yes exactly when some line says yes and every line
    * before it is invalid.
    */
  lemma {:induction false} FirstVerdictYesIff(lines: seq<string>)
    ensures FirstVerdict(lines) <==>
      exists k :: 0 <= k < |lines| && Classify(lines[k]) == Yes &&
        forall j :: 0 <= j < k ==> Classify(lines[j]) == Invalid
  {
    if lines != [] {
      FirstVerdictYesIff(lines[1..]);
      if Classify(lines[0]) == Invalid {
        if FirstVerdict(lines) {
          var k :| 0 <= k < |lines| - 1 && Classify(lines[1..][k]) == Yes &&
            forall j :: 0 <= j < k ==> Classify(lines[1..][j]) == Invalid;
          assert forall j :: 0 <= j < k + 1 ==> Classify(lines[j]) == Invalid by {
            forall j | 0 <= j < k + 1 ensures Classify(lines[j]) == Invalid {
              if j > 0 { assert lines[j] == lines[1..][j - 1]; }
            }
          }
          assert Classify(lines[k + 1]) == Yes;
        }
        if exists k :: 0 <= k < |lines| && Classify(lines[k]) == Yes &&
            forall j :: 0 <= j < k ==> Classify(lines[j]) == Invalid {
          var k :| 0 <= k < |lines| && Classify(lines[k]) == Yes &&
            forall j :: 0 <= j < k ==> Classify(lines[j]) == Invalid;
          assert k > 0;
          assert Classify(lines[1..][k - 1]) == Yes;
          assert forall j :: 0 <= j < k - 1 ==> Classify(lines[1..][j]) == Invalid by {
            forall j | 0 <= j < k - 1 ensures Classify(lines[1..][j]) == Invalid {
              assert lines[1..][j] == lines[j + 1];
            }
          }
        }
      }
    }
  }

  /**
    * Without any line holding a valid answer (the input runs out, or ends
    * in a read error, first) the prompt answers no and reads everything.
    */
  lemma {:induction false} ConfirmationNoValidLine(s: seq<char>)
    requires forall i :: 0 <= i < |Lines(s)| ==> Classify(Lines(s)[i]) == Invalid
    ensures Confirmation(s) == Reply(false, [])
    decreases |s|
  {
    match ReadLine(s)
    case Failure =>
    case Line(t, rest) =>
      assert Lines(s) == [t] + Lines(rest);
      assert Classify(t) == Invalid by { assert Lines(s)[0] == t; }
      forall i | 0 <= i < |Lines(rest)| ensures Classify(Lines(rest)[i]) == Invalid {
        assert Lines(rest)[i] == Lines(s)[i + 1];
      }
      ConfirmationNoValidLine(rest);
  }

  /** An invalid line is answered by asking again: it leaves no other trace. */
  lemma ConfirmationSkipsInvalid(line: string, rest: seq<char>)
    requires line != [] && line[|line| - 1] == '\n' && '\n' !in line[..|line| - 1]
    requires Classify(line) == Invalid
    ensures Confirmation(line + rest) == Confirmation(rest)
  {
    ReadLineOf(line, rest);
  }

  /** A valid line ends the prompt with its own answer, leaving the input after it unread. */
  lemma ConfirmationStopsAtValid(line: string, rest: seq<char>)
    requires line != [] && line[|line| - 1] == '\n' && '\n' !in line[..|line| - 1]
    requires Classify(line) != Invalid
    ensures Confirmation(line + rest) == Reply(Classify(line) == Yes, rest)
  {
    ReadLineOf(line, rest);
  }

  /** The prompt loop: ask, read a line, classify it, ask again on invalid input. */
  method ConfirmWithReader(reader: Stdin) returns (yes: bool)
    modifies reader
    ensures Reply(yes, reader.input) == Confirmation(old(reader.input))
  {
    while true
      invariant Confirmation(reader.input) == Confirmation(old(reader.input))
      decreases |reader.input|
    {
      var line := reader.ReadString();
      if line.None? {
        return false;
      }
      var answer := Classify(line.value);
      if answer == Yes {
        return true;
      }
      if answer == No {
        return false;
      }
    }
  }

  /** The prompt on standard input. */
  method Confirm(stdin: Stdin) returns (yes: bool)
    modifies stdin
    ensures Reply(yes, stdin.input) == Confirmation(old(stdin.input))
  {
    yes := ConfirmWithReader(stdin);
  }
}
