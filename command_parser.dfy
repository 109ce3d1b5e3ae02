/**
 * The server console's `CommandParser`: a registry of named commands and a
 * queue of command invocations. `run` reads lines, looks up each line's
 * first word, case-insensitively, and queues the command with the rest of
 * the line as its argument until a command that ends the parser is read;
 * `update` later runs the queued invocations in order.
 *
 * The console is the sequence of lines `run` reads. A command's action
 * (a `Consumer<String>`) is identified by a number; running an invocation
 * is recorded in `ran` rather than performed.
 */
module CommandParser {
  import opened Java

  /** A registered action, or the one `UNKNOWN_COMMAND` prints "Unknown command." with. */
  datatype Action = PrintUnknown | Registered(id: nat)

  /** `CommandEntry`. */
  datatype Entry = Entry(action: Action, terminateParser: bool)

  /** What `run` queues: the entry's action applied to the arguments. */
  datatype Invocation = Invocation(entry: Entry, args: string)

  const UNKNOWN_COMMAND: Entry := Entry(PrintUnknown, false)

  // Characters, as `Character.isWhitespace` and the regular expression `\w` classify them.

  predicate IsWhitespace(c: char)
  {
    // tab, line feed, vertical tab, form feed, carriage return; the four separators and space
    (9 <= c as int <= 13) || (0x1C <= c as int <= 0x20)
  }

  predicate IsWordChar(c: char)
  {
    ('a' <= c <= 'z') || ('A' <= c <= 'Z') || ('0' <= c <= '9') || c == '_'
  }

  predicate AllWord(s: string)
  {
    forall k | 0 <= k < |s| :: IsWordChar(s[k])
  }

  function LowerChar(c: char): char
  {
    if 'A' <= c <= 'Z' then (c as int + 32) as char else c
  }

  /** `toLowerCase` on the letters A to Z. */
  function Lower(s: string): (r: string)
    ensures |r| == |s|
    ensures forall k | 0 <= k < |s| :: r[k] == LowerChar(s[k])
  {
    if |s| == 0 then [] else [LowerChar(s[0])] + Lower(s[1..])
  }

  /** Lowering a lowered name changes nothing, so a registered name is its own key. */
  lemma LowerIdempotent(s: string)
    ensures Lower(Lower(s)) == Lower(s)
  {
  }

  /** Two names that differ only in the case of their letters have the same key. */
  lemma LowerIgnoresCase(a: string, b: string)
    requires |a| == |b| && forall k | 0 <= k < |a| :: a[k] == b[k] || LowerChar(a[k]) == b[k] || a[k] == LowerChar(b[k])
    ensures Lower(a) == Lower(b)
  {
    assert forall k | 0 <= k < |a| :: LowerChar(LowerChar(a[k])) == LowerChar(a[k]);
  }

  /** The line without its leading whitespace. */
  function TrimStart(s: string): (r: string)
    ensures |r| <= |s|
  {
    if |s| == 0 || !IsWhitespace(s[0]) then s else TrimStart(s[1..])
  }

  /** `TrimStart` removes a prefix of whitespace, and exactly as much as the line starts with. */
  lemma {:induction false} TrimStartSpec(s: string)
    ensures TrimStart(s) == s[|s| - |TrimStart(s)|..]
    ensures forall k | 0 <= k < |s| - |TrimStart(s)| :: IsWhitespace(s[k])
    ensures TrimStart(s) == [] || !IsWhitespace(TrimStart(s)[0])
  {
    if |s| > 0 && IsWhitespace(s[0]) {
      TrimStartSpec(s[1..]);
    }
  }

  /** The line without its trailing whitespace. */
  function TrimEnd(s: string): (r: string)
    ensures |r| <= |s|
  {
    if |s| == 0 || !IsWhitespace(s[|s| - 1]) then s else TrimEnd(s[..|s| - 1])
  }

  /** `TrimEnd` removes a suffix of whitespace, and exactly as much as the line ends with. */
  lemma {:induction false} TrimEndSpec(s: string)
    ensures TrimEnd(s) == s[..|TrimEnd(s)|]
    ensures forall k | |TrimEnd(s)| <= k < |s| :: IsWhitespace(s[k])
    ensures TrimEnd(s) == [] || !IsWhitespace(TrimEnd(s)[|TrimEnd(s)| - 1])
  {
    if |s| > 0 && IsWhitespace(s[|s| - 1]) {
      TrimEndSpec(s[..|s| - 1]);
      assert s[..|s| - 1][..|TrimEnd(s)|] == s[..|TrimEnd(s)|];
    }
  }

  /** `strip`: the line without its leading and trailing whitespace. */
  function Strip(s: string): (r: string)
    ensures |r| <= |s|
  {
    TrimEnd(TrimStart(s))
  }

  /**
   * What `strip` keeps is a slice of the line, preceded and followed only by
   * whitespace, and neither starts nor ends with whitespace.
   */
  lemma StripSpec(s: string)
    ensures |s| - |TrimStart(s)| + |Strip(s)| <= |s|
    ensures Strip(s) == s[|s| - |TrimStart(s)|..|s| - |TrimStart(s)| + |Strip(s)|]
    ensures forall k | 0 <= k < |s| - |TrimStart(s)| :: IsWhitespace(s[k])
    ensures forall k | |s| - |TrimStart(s)| + |Strip(s)| <= k < |s| :: IsWhitespace(s[k])
    ensures Strip(s) == [] || (!IsWhitespace(Strip(s)[0]) && !IsWhitespace(Strip(s)[|Strip(s)| - 1]))
  {
    var t := TrimStart(s);
    TrimStartSpec(s);
    TrimEndSpec(t);
    Within(s, t, Strip(s));
  }

  /** A prefix `r` of a suffix `t` of `s`, followed in `t` by whitespace only, sits in `s` likewise. */
  lemma Within(s: string, t: string, r: string)
    requires |t| <= |s| && t == s[|s| - |t|..] && |r| <= |t| && r == t[..|r|]
    requires forall k | |r| <= k < |t| :: IsWhitespace(t[k])
    ensures r == s[|s| - |t|..|s| - |t| + |r|]
    ensures forall k | |s| - |t| + |r| <= k < |s| :: IsWhitespace(s[k])
  {
    var i := |s| - |t|;
    forall k | i + |r| <= k < |s|
      ensures IsWhitespace(s[k])
    {
      assert s[k] == t[k - i];
    }
  }

  /** The length of the run of non-whitespace characters the line starts with. */
  function TokenEnd(s: string): (r: nat)
    ensures r <= |s|
  {
    if |s| == 0 || IsWhitespace(s[0]) then 0 else 1 + TokenEnd(s[1..])
  }

  /** `TokenEnd` stops at the first whitespace character. */
  lemma {:induction false} TokenEndSpec(s: string)
    ensures forall k | 0 <= k < TokenEnd(s) :: !IsWhitespace(s[k])
    ensures TokenEnd(s) == |s| || IsWhitespace(s[TokenEnd(s)])
  {
    if |s| > 0 && !IsWhitespace(s[0]) {
      TokenEndSpec(s[1..]);
    }
  }

  /** The line's first token, the text up to the whitespace after it. */
  function Token(line: string): string
  {
    var t := TrimStart(line);
    t[..TokenEnd(t)]
  }

  /** What follows the first token. */
  function Rest(line: string): string
  {
    var t := TrimStart(line);
    t[TokenEnd(t)..]
  }

  /** `hasNext(nameMatcher)` on this line: its first token is a word. */
  predicate WordToken(line: string)
  {
    |Token(line)| > 0 && AllWord(Token(line))
  }

  /** A line of whitespace only, on which the scanner finds no token. */
  predicate Blank(line: string)
  {
    TrimStart(line) == []
  }

  /** The first line from `i` on that is not blank, or the number of lines. */
  function NextNonBlank(lines: seq<string>, i: nat): (j: nat)
    requires i <= |lines|
    ensures i <= j <= |lines|
    ensures forall k | i <= k < j :: Blank(lines[k])
    ensures j < |lines| ==> !Blank(lines[j])
    decreases |lines| - i
  {
    if i == |lines| || !Blank(lines[i]) then i else NextNonBlank(lines, i + 1)
  }

  /** `commands.getOrDefault(name, UNKNOWN_COMMAND)`. */
  function Lookup(commands: map<string, Entry>, name: string): Entry
  {
    if name in commands then commands[name] else UNKNOWN_COMMAND
  }

  /**
   * One pass of `run`'s loop from line `i`. The scanner looks for the next
   * token past any line breaks: when it is a word, that word (lowered)
   * selects the command, and the rest of its line, stripped, is the
   * argument. Otherwise the command is unknown and the rest of the current
   * line is consumed. Also the index of the next line to read.
   */
  function Step(commands: map<string, Entry>, lines: seq<string>, i: nat): (r: (Invocation, nat))
    requires i < |lines|
    ensures i < r.1 <= |lines|
  {
    var j := NextNonBlank(lines, i);
    if j < |lines| && WordToken(lines[j]) then
      (Invocation(Lookup(commands, Lower(Token(lines[j]))), Strip(Rest(lines[j]))), j + 1)
    else
      (Invocation(UNKNOWN_COMMAND, Strip(lines[i])), i + 1)
  }

  /**
   * `run` from line `i` on: the invocations it queues and how it ends. It
   * ends normally after queuing an entry that terminates the parser, and
   * with `NoSuchElementException` when the lines run out before that.
   */
  function Parse(commands: map<string, Entry>, lines: seq<string>, i: nat): (r: (seq<Invocation>, Result<()>))
    requires i <= |lines|
    decreases |lines| - i
  {
    if i == |lines| then ([], Err(NoSuchElement))
    else
      var (invocation, next) := Step(commands, lines, i);
      if invocation.entry.terminateParser then ([invocation], Ok(()))
      else
        var rest := Parse(commands, lines, next);
        ([invocation] + rest.0, rest.1)
  }

  /**
   * The parse loop queues at most one invocation per line and stops after
   * the first entry that terminates the parser: no invocation before the
   * last one terminates, and the run ends normally exactly when the last
   * one does.
   */
  lemma {:induction false} ParseStopsAtTerminator(commands: map<string, Entry>, lines: seq<string>, i: nat)
    requires i <= |lines|
    ensures |Parse(commands, lines, i).0| <= |lines| - i
    ensures i < |lines| ==> |Parse(commands, lines, i).0| > 0
    ensures forall k | 0 <= k < |Parse(commands, lines, i).0| - 1 :: !Parse(commands, lines, i).0[k].entry.terminateParser
    ensures Parse(commands, lines, i).1.Ok? <==> (|Parse(commands, lines, i).0| > 0
      && Parse(commands, lines, i).0[|Parse(commands, lines, i).0| - 1].entry.terminateParser)
    ensures Parse(commands, lines, i).1.Err? ==> Parse(commands, lines, i).1.error == NoSuchElement
    decreases |lines| - i
  {
    if i < |lines| {
      var (invocation, next) := Step(commands, lines, i);
      if !invocation.entry.terminateParser {
        ParseStopsAtTerminator(commands, lines, next);
      }
    }
  }

  /**
   * A line that starts with a registered name, in any case, followed by a
   * space selects that name's command, with the rest of the line, stripped,
   * as its argument; an unregistered word selects `UNKNOWN_COMMAND`.
   */
  lemma ScanFindsCommand(commands: map<string, Entry>, name: string, rest: string)
    requires |name| > 0 && AllWord(name)
    ensures Step(commands, [name + [' '] + rest], 0).0
      == Invocation(Lookup(commands, Lower(name)), Strip([' '] + rest))
  {
    var line := name + [' '] + rest;
    CommandLine(name, rest);
    assert NextNonBlank([line], 0) == 0;
  }

  /** The first token of such a line is the name, and a word. */
  lemma CommandLine(name: string, rest: string)
    requires |name| > 0 && AllWord(name)
    ensures var line := name + [' '] + rest;
      !Blank(line) && Token(line) == name && Rest(line) == [' '] + rest && WordToken(line)
  {
    var line := name + [' '] + rest;
    assert line[0] == name[0];
    assert TrimStart(line) == line;
    TokenIs(line, |name|);
    assert line[..|name|] == name;
    assert line[|name|..] == [' '] + rest;
  }

  /** A run of non-whitespace characters ended by whitespace is the token. */
  lemma {:induction false} TokenIs(s: string, n: nat)
    requires n < |s| && IsWhitespace(s[n]) && forall k | 0 <= k < n :: !IsWhitespace(s[k])
    ensures TokenEnd(s) == n
  {
    if n > 0 {
      TokenIs(s[1..], n - 1);
    }
  }

  /** `strip` drops leading whitespace, so the space after the name does not reach the argument. */
  lemma StripLeading(rest: string)
    ensures Strip([' '] + rest) == Strip(rest)
  {
    assert ([' '] + rest)[1..] == rest;
  }

  class CommandParser {
    var commands: map<string, Entry>
    var commandQueue: seq<Invocation>
    /** The invocations `update` has run, in order. */
    var ran: seq<Invocation>

    /** No commands and nothing queued. */
    constructor()
      ensures commands == map[] && commandQueue == [] && ran == []
    {
      commands, commandQueue, ran := map[], [], [];
    }

    /**
     * `register(name, action, terminateParser)`: the command is stored under
     * its lowered name, unless that name is taken, which is an
     * `IllegalArgumentException` that leaves the registry as it was.
     */
    method Register(name: string, action: nat, terminateParser: bool) returns (r: Result<()>)
      modifies this
      ensures Lower(name) in old(commands) ==> r == Err(IllegalArgument) && commands == old(commands)
      ensures Lower(name) !in old(commands) ==> (r.Ok?
        && commands == old(commands)[Lower(name) := Entry(Registered(action), terminateParser)])
      ensures commandQueue == old(commandQueue) && ran == old(ran)
    {
      var key := Lower(name);
      if key in commands {
        return Err(IllegalArgument);
      }
      commands := commands[key := Entry(Registered(action), terminateParser)];
      return Ok(());
    }

    /**
     * `run`, on the console's `lines`: line after line, one invocation is
     * queued, until the entry queued terminates the parser; when the lines
     * run out first, `nextLine` throws.
     */
    method Run(lines: seq<string>) returns (r: Result<()>)
      modifies this
      ensures commandQueue == old(commandQueue) + Parse(commands, lines, 0).0
      ensures r == Parse(commands, lines, 0).1
      ensures commands == old(commands) && ran == old(ran)
    {
      var i := 0;
      ghost var registry, queued := commands, [];
      assert queued + Parse(registry, lines, 0).0 == Parse(registry, lines, 0).0;
      while true
        invariant i <= |lines|
        invariant commandQueue == old(commandQueue) + queued
        invariant Parse(registry, lines, 0).0 == queued + Parse(registry, lines, i).0
        invariant Parse(registry, lines, 0).1 == Parse(registry, lines, i).1
        invariant commands == registry == old(commands) && ran == old(ran)
        decreases |lines| - i
      {
        if i == |lines| {
          return Err(NoSuchElement);
        }
        var (invocation, next) := Step(commands, lines, i);
        commandQueue := commandQueue + [invocation];
        queued := queued + [invocation];
        if invocation.entry.terminateParser {
          return Ok(());
        }
        assert Parse(registry, lines, i).0 == [invocation] + Parse(registry, lines, next).0;
        i := next;
      }
    }

    /** `update`: every queued invocation runs, first queued first, and the queue is left empty. */
    method Update()
      modifies this
      ensures ran == old(ran) + old(commandQueue) && commandQueue == []
      ensures commands == old(commands)
    {
      while |commandQueue| > 0
        invariant ran + commandQueue == old(ran) + old(commandQueue)
        invariant commands == old(commands)
        decreases |commandQueue|
      {
        ran := ran + [commandQueue[0]];
        commandQueue := commandQueue[1..];
      }
    }
  }
}
