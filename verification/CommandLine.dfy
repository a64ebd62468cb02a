/**
 * Arguments made into a command line, and taken out of it again by the program started: the rules of the Microsoft C
 * runtime for the arguments after the program's name.
 */
module CommandLine {
  import opened CStrings

  // ----- the runtime's rules

  predicate Blank(c: char) { c == ' ' || c == '\t' }

  function Slashes(n: nat): (s: string)
    ensures |s| == n && forall i :: 0 <= i < n ==> s[i] == '\\'
  {
    seq(n, _ => '\\')
  }

  /**
   * Reads on in an argument: whether in quotes, how many backslashes are waiting to see what follows, and the argument
   * so far. Gives the argument and the rest of the line.
   */
  function ReadArg(line: string, inQuote: bool, waiting: nat, arg: string): (r: (string, string))
    ensures |r.1| <= |line|
    decreases |line|
  {
    if line == "" then (arg + Slashes(waiting), "")
    else if line[0] == '\\' then ReadArg(line[1..], inQuote, waiting + 1, arg)
    else if line[0] == '"' then
      if waiting % 2 == 1 then ReadArg(line[1..], inQuote, 0, arg + Slashes(waiting / 2) + "\"")
      else if inQuote && |line| >= 2 && line[1] == '"' then
        ReadArg(line[2..], inQuote, 0, arg + Slashes(waiting / 2) + "\"")
      else ReadArg(line[1..], !inQuote, 0, arg + Slashes(waiting / 2))
    else if !inQuote && Blank(line[0]) then (arg + Slashes(waiting), line)
    else ReadArg(line[1..], inQuote, 0, arg + Slashes(waiting) + [line[0]])
  }

  lemma {:induction false} ReadArgAdvances(line: string, inQuote: bool, waiting: nat, arg: string)
    requires line != "" && !Blank(line[0])
    ensures |ReadArg(line, inQuote, waiting, arg).1| < |line|
  {
  }

  function ReadArgs(line: string): seq<string>
    decreases |line|
  {
    if line == "" then []
    else if Blank(line[0]) then ReadArgs(line[1..])
    else
      ReadArgAdvances(line, false, 0, "");
      var (arg, rest) := ReadArg(line, false, 0, "");
      [arg] + ReadArgs(rest)
  }

  /** The arguments the program sees. */
  function Arguments(line: string): seq<string> { ReadArgs(CString(line)) }

  // ----- quoting, from left to right

  /** Backslashes up to a quote or the end. */
  predicate SlashesToQuote(s: string)
  {
    s == "" || s[0] == '"' || (s[0] == '\\' && SlashesToQuote(s[1..]))
  }

  /** Quotes get a backslash, and backslashes before a quote or the end are doubled. */
  function Escaped(s: string): string
  {
    if s == "" then ""
    else if s[0] == '"' then "\\\"" + Escaped(s[1..])
    else if s[0] == '\\' && SlashesToQuote(s[1..]) then "\\\\" + Escaped(s[1..])
    else [s[0]] + Escaped(s[1..])
  }

  /** No blank and no quote. */
  predicate Plain(s: string) { ' ' !in s && '\t' !in s && '"' !in s }

  predicate NeedsQuotes(s: string) { s == "" || !Plain(s) }

  function Quoted(s: string): string
  {
    if NeedsQuotes(s) then "\"" + Escaped(s) + "\"" else s
  }

  function Joined(args: seq<string>): string
  {
    if args == [] then "" else if |args| == 1 then Quoted(args[0]) else Quoted(args[0]) + " " + Joined(args[1..])
  }

  // ----- reading back one argument

  predicate EndsArg(rest: string) { rest == "" || Blank(rest[0]) }

  lemma AfterSlash(line: string, inQuote: bool, n: nat, arg: string)
    ensures ReadArg("\\" + line, inQuote, n, arg) == ReadArg(line, inQuote, n + 1, arg)
  {
    assert ("\\" + line)[1..] == line;
  }

  lemma AtQuote(line: string, inQuote: bool, waiting: nat, n: nat, arg: string)
    requires waiting == 2 * n || waiting == 2 * n + 1
    requires line != "" && line[0] == '"' && (|line| > 1 ==> line[1] != '"' || waiting == 2 * n + 1)
    ensures ReadArg(line, inQuote, waiting, arg)
         == if waiting == 2 * n then ReadArg(line[1..], !inQuote, 0, arg + Slashes(n))
            else ReadArg(line[1..], inQuote, 0, arg + Slashes(n) + "\"")
  {
    assert waiting % 2 == waiting - 2 * n && waiting / 2 == n;
  }

  lemma AfterEscapedQuote(line: string, n: nat, arg: string)
    ensures ReadArg("\\\"" + line, true, 2 * n, arg) == ReadArg(line, true, 0, arg + Slashes(n) + "\"")
  {
    var quote := "\"" + line;
    assert "\\\"" + line == "\\" + quote;
    AfterSlash(quote, true, 2 * n, arg);
    AtQuote(quote, true, 2 * n + 1, n, arg);
    assert quote[1..] == line;
    hide ReadArg, Slashes;
  }

  lemma AfterClosingQuote(rest: string, n: nat, arg: string)
    requires EndsArg(rest)
    ensures ReadArg("\"" + rest, true, 2 * n, arg) == ReadArg(rest, false, 0, arg + Slashes(n))
  {
    AtQuote("\"" + rest, true, 2 * n, n, arg);
    assert ("\"" + rest)[1..] == rest;
    hide ReadArg, Slashes;
  }

  lemma AfterOther(c: char, line: string, inQuote: bool, n: nat, arg: string)
    requires c != '\\' && c != '"' && (inQuote || !Blank(c))
    ensures ReadArg([c] + line, inQuote, n, arg) == ReadArg(line, inQuote, 0, arg + Slashes(n) + [c])
  {
    assert ([c] + line)[1..] == line;
  }

  /** How many backslashes are waiting when `n` of the argument's have been read but not yet decided on. */
  function Waiting(s: string, n: nat): nat
  {
    if SlashesToQuote(s) then 2 * n else n
  }

  /** What is left of the line after an argument's escaped rest. */
  function Line(s: string, rest: string): string { Escaped(s) + "\"" + rest }

  lemma LineCons(s: string, rest: string)
    requires s != ""
    ensures var after := Line(s[1..], rest);
      Line(s, rest) == if s[0] == '"' then "\\\"" + after
                       else if s[0] == '\\' && SlashesToQuote(s[1..]) then "\\" + ("\\" + after)
                       else [s[0]] + after
  {
    hide SlashesToQuote;
  }

  lemma {:induction false} ReadsEscaped(s: string, n: nat, arg: string, rest: string)
    requires EndsArg(rest)
    ensures ReadArg(Line(s, rest), true, Waiting(s, n), arg) == ReadArg(rest, false, 0, arg + Slashes(n) + s)
  {
    hide ReadArg, Slashes, EndsArg;
    if s == "" {
      assert Line(s, rest) == "\"" + rest;
      AfterClosingQuote(rest, n, arg);
      assert arg + Slashes(n) + s == arg + Slashes(n);
    } else {
      var after := Line(s[1..], rest);
      LineCons(s, rest);
      hide Line;
      if s[0] == '"' {
        AfterEscapedQuote(after, n, arg);
        ReadsEscaped(s[1..], 0, arg + Slashes(n) + "\"", rest);
        Regroup(arg + Slashes(n), s);
      } else if s[0] == '\\' {
        ReadsEscaped(s[1..], n + 1, arg, rest);
        OneMoreSlash(arg, n, s);
        if SlashesToQuote(s[1..]) {
          AfterSlash("\\" + after, true, 2 * n, arg);
          AfterSlash(after, true, 2 * n + 1, arg);
        } else {
          AfterSlash(after, true, n, arg);
        }
      } else {
        AfterOther(s[0], after, true, n, arg);
        ReadsEscaped(s[1..], 0, arg + Slashes(n) + [s[0]], rest);
        Regroup(arg + Slashes(n), s);
      }
    }
  }

  lemma Regroup(before: string, s: string)
    requires s != ""
    ensures before + [s[0]] + Slashes(0) + s[1..] == before + s
  {
  }

  lemma OneMoreSlash(arg: string, n: nat, s: string)
    requires s != "" && s[0] == '\\'
    ensures arg + Slashes(n + 1) + s[1..] == arg + Slashes(n) + s
  {
    assert Slashes(n + 1) == Slashes(n) + "\\";
  }

  lemma PlainTail(s: string)
    requires Plain(s) && s != ""
    ensures Plain(s[1..]) && s[0] != '"' && !Blank(s[0])
  {
  }

  lemma {:induction false} ReadsPlain(s: string, n: nat, arg: string, rest: string)
    requires EndsArg(rest) && Plain(s)
    ensures ReadArg(s + rest, false, n, arg) == (arg + Slashes(n) + s, rest)
  {
    if s == "" {
      assert s + rest == rest && arg + Slashes(n) + s == arg + Slashes(n);
    } else {
      PlainTail(s);
      hide ReadArg, Slashes, EndsArg, Blank, Plain;
      assert s + rest == [s[0]] + (s[1..] + rest);
      if s[0] == '\\' {
        AfterSlash(s[1..] + rest, false, n, arg);
        ReadsPlain(s[1..], n + 1, arg, rest);
        OneMoreSlash(arg, n, s);
      } else {
        AfterOther(s[0], s[1..] + rest, false, n, arg);
        ReadsPlain(s[1..], 0, arg + Slashes(n) + [s[0]], rest);
        Regroup(arg + Slashes(n), s);
      }
    }
  }

  lemma ReadsQuoted(s: string, rest: string)
    requires EndsArg(rest)
    ensures var line := Quoted(s) + rest;
      line != "" && !Blank(line[0]) && ReadArg(line, false, 0, "") == (s, rest)
  {
    assert "" + Slashes(0) + s == s && s + Slashes(0) == s;
    if NeedsQuotes(s) {
      var line := Line(s, rest);
      assert Quoted(s) + rest == "\"" + line;
      AfterOpeningQuote(line);
      ReadsEscaped(s, 0, "", rest);
      assert ReadArg(rest, false, 0, s) == (s, rest);
      hide ReadArg, Line, NeedsQuotes;
    } else {
      ReadsPlain(s, 0, "", rest);
      hide ReadArg, Escaped;
    }
  }

  lemma AfterOpeningQuote(line: string)
    ensures ReadArg("\"" + line, false, 0, "") == ReadArg(line, true, 0, "")
  {
    assert ("\"" + line)[1..] == line;
    assert "" + Slashes(0) == "";
  }

  // ----- reading back a command line

  lemma {:induction false} ReadsJoined(args: seq<string>)
    ensures ReadArgs(Joined(args)) == args
  {
    hide ReadArg, Quoted;
    if args == [] {
      assert ReadArgs("") == [];
    } else if |args| == 1 {
      ReadsQuoted(args[0], "");
      assert Quoted(args[0]) + "" == Joined(args);
      ReadsOne(args[0], "");
    } else {
      var rest := " " + Joined(args[1..]);
      assert Quoted(args[0]) + rest == Joined(args);
      ReadsOne(args[0], rest);
      ReadsJoined(args[1..]);
      assert rest[1..] == Joined(args[1..]);
      assert ReadArgs(rest) == ReadArgs(rest[1..]);
    }
  }

  lemma ReadsOne(s: string, rest: string)
    requires EndsArg(rest)
    ensures ReadArgs(Quoted(s) + rest) == [s] + ReadArgs(rest)
  {
    ReadsQuoted(s, rest);
    hide ReadArg, Quoted;
  }

  lemma {:induction false} EscapedNul(s: string)
    ensures '\0' in Escaped(s) <==> '\0' in s
  {
    if s != "" {
      EscapedNul(s[1..]);
      assert s == [s[0]] + s[1..];
    }
  }

  predicate NoNul(args: seq<string>)
  {
    forall i :: 0 <= i < |args| ==> '\0' !in args[i]
  }

  lemma {:induction false} JoinedNul(args: seq<string>)
    ensures '\0' !in Joined(args) <==> NoNul(args)
  {
    if args != [] {
      EscapedNul(args[0]);
      JoinedNul(args[1..]);
      assert NoNul(args) <==> '\0' !in args[0] && NoNul(args[1..]) by {
        assert args == [args[0]] + args[1..];
      }
    }
  }

  lemma {:induction false} ReadArgNul(line: string, inQuote: bool, waiting: nat, arg: string)
    requires '\0' !in line && '\0' !in arg
    ensures var (a, rest) := ReadArg(line, inQuote, waiting, arg); '\0' !in a && '\0' !in rest
    decreases |line|
  {
    if line != "" {
      if line[0] == '\\' {
        ReadArgNul(line[1..], inQuote, waiting + 1, arg);
      } else if line[0] == '"' {
        if waiting % 2 == 1 {
          ReadArgNul(line[1..], inQuote, 0, arg + Slashes(waiting / 2) + "\"");
        } else if inQuote && |line| >= 2 && line[1] == '"' {
          ReadArgNul(line[2..], inQuote, 0, arg + Slashes(waiting / 2) + "\"");
        } else {
          ReadArgNul(line[1..], !inQuote, 0, arg + Slashes(waiting / 2));
        }
      } else if inQuote || !Blank(line[0]) {
        ReadArgNul(line[1..], inQuote, 0, arg + Slashes(waiting) + [line[0]]);
      }
    }
  }

  lemma {:induction false} ReadArgsNul(line: string)
    requires '\0' !in line
    ensures NoNul(ReadArgs(line))
    decreases |line|
  {
    if line != "" {
      if Blank(line[0]) {
        ReadArgsNul(line[1..]);
      } else {
        ReadArgAdvances(line, false, 0, "");
        ReadArgNul(line, false, 0, "");
        ReadArgsNul(ReadArg(line, false, 0, "").1);
      }
    }
  }

  /** The program gets exactly the arguments it was to get, any number of them, unless there is a NUL in one. */
  lemma RoundTripIff(args: seq<string>)
    ensures Arguments(Joined(args)) == args <==> NoNul(args)
  {
    JoinedNul(args);
    CStringWhole(Joined(args));
    if NoNul(args) {
      ReadsJoined(args);
    } else {
      ReadArgsNul(CString(Joined(args)));
    }
  }

  // ----- the code: from right to left, then reversed

  function Reversed(s: string): string
  {
    seq(|s|, i requires 0 <= i < |s| => s[|s| - 1 - i])
  }

  method ReverseInPlace(s: string) returns (t: string)
    ensures t == Reversed(s)
  {
    t := s;
    var i := 0;
    while i < |s| / 2
      invariant 0 <= i <= |s| / 2 && |t| == |s|
      invariant forall k :: 0 <= k < i ==> t[k] == s[|s| - 1 - k] && t[|s| - 1 - k] == s[k]
      invariant forall k :: i <= k < |s| - i ==> t[k] == s[k]
    {
      var tmp := t[i];
      t := t[i := t[|t| - i - 1]];
      t := t[|t| - i - 1 := tmp];
      i := i + 1;
    }
  }

  /** The quoted argument back to front. */
  method QuoteBackwards(s: string) returns (t: string)
    ensures t == Reversed("\"" + Escaped(s) + "\"")
  {
    var quoteHit := true;
    t := "\"";
    for i := |s| downto 0
      invariant quoteHit == SlashesToQuote(s[i..])
      invariant t == "\"" + Reversed(Escaped(s[i..]))
    {
      var c := s[i];
      EscapedAt(s, i);
      t := t + [c];
      if quoteHit && c == '\\' {
        t := t + "\\";
      } else if c == '"' {
        quoteHit := true;
        t := t + "\\";
      } else {
        quoteHit := false;
      }
    }
    assert s[0..] == s;
    t := t + "\"";
  }

  lemma EscapedAt(s: string, i: nat)
    requires i < |s|
    ensures var rest, c := s[i + 1..], s[i];
      && SlashesToQuote(s[i..]) == (c == '"' || (c == '\\' && SlashesToQuote(rest)))
      && Reversed(Escaped(s[i..])) == Reversed(Escaped(rest)) + [c]
         + (if c == '"' || (c == '\\' && SlashesToQuote(rest)) then "\\" else "")
  {
    assert s[i..][1..] == s[i + 1..];
  }

  lemma {:induction false} NothingToEscape(s: string)
    requires '"' !in s && '\\' !in s
    ensures Escaped(s) == s
  {
    if s != "" {
      NothingToEscape(s[1..]);
      assert s == [s[0]] + s[1..];
    }
  }

  lemma ReversedTwice(s: string)
    ensures Reversed(Reversed(s)) == s
  {
  }

  /** The quoting of the Lua library. */
  method QuoteArg(s: string) returns (quoted: string)
    ensures quoted == Quoted(s)
  {
    hide Escaped, Reversed;
    if s == "" {
      NothingToEscape(s);
      return "\"\"";
    }
    if ' ' !in s && '\t' !in s && '"' !in s {
      return s;
    }
    if '"' !in s && '\\' !in s {
      NothingToEscape(s);
      return "\"" + s + "\"";
    }
    var t := QuoteBackwards(s);
    ReversedTwice("\"" + Escaped(s) + "\"");
    quoted := ReverseInPlace(t);
  }

  // ----- the copy of it that starts processes

  /** For the empty argument there is a NUL too many. */
  function NativeQuoted(s: string): string { if s == "" then "\"\"\0" else Quoted(s) }

  function NativeJoined(args: seq<string>): string
  {
    if args == [] then ""
    else if |args| == 1 then NativeQuoted(args[0])
    else NativeQuoted(args[0]) + " " + NativeJoined(args[1..])
  }

  /** The prefix is put in front as it is. */
  method MakeArgs(args: seq<string>, prefix: string) returns (line: string)
    ensures line == prefix + NativeJoined(args) + "\0"
  {
    hide NativeJoined, NativeQuoted;
    line := "";
    if prefix != "" {
      line := line + prefix;
    }
    assert args[0..] == args;
    for i := 0 to |args|
      invariant prefix + NativeJoined(args) == line + NativeJoined(args[i..])
    {
      JoinedFrom(args, i);
      var quoted := NativeQuoteArg(args[i]);
      line := line + quoted;
      if i + 1 != |args| {
        line := line + " ";
      }
    }
    assert args[|args|..] == [];
    JoinedNone();
    line := line + "\0";
  }

  lemma JoinedNone()
    ensures NativeJoined([]) == ""
  {
  }

  method NativeQuoteArg(source: string) returns (quoted: string)
    ensures quoted == NativeQuoted(source)
  {
    if source == "" {
      return "\"\"\0";
    }
    quoted := QuoteArg(source);
  }

  lemma JoinedFrom(args: seq<string>, i: nat)
    requires i < |args|
    ensures NativeJoined(args[i..])
         == NativeQuoted(args[i]) + (if i + 1 != |args| then " " else "") + NativeJoined(args[i + 1..])
  {
    hide NativeQuoted;
    assert args[i..][1..] == args[i + 1..];
  }

  /** The arguments up to the first empty one. */
  function Seen(args: seq<string>): seq<string>
  {
    if args == [] then [] else if args[0] == "" then [""] else [args[0]] + Seen(args[1..])
  }

  lemma QuotedNul(s: string)
    requires '\0' !in s
    ensures '\0' !in Quoted(s)
  {
    EscapedNul(s);
  }

  lemma {:induction false} SeenOfLine(args: seq<string>)
    requires NoNul(args)
    ensures CString(NativeJoined(args) + "\0") == Joined(Seen(args))
  {
    if args == [] {
      assert NativeJoined(args) + "\0" == "\0";
    } else if args[0] == "" {
      SeenToEmpty(args);
    } else if |args| == 1 {
      SeenOne(args);
    } else {
      hide NativeJoined, Seen, Joined, Quoted;
      SeenOfLine(args[1..]);
      SeenOfLonger(args);
      QuotedNul(args[0]);
      CStringAppend(Quoted(args[0]) + " ", NativeJoined(args[1..]) + "\0");
      NativeLonger(args);
    }
  }

  lemma SeenToEmpty(args: seq<string>)
    requires args != [] && args[0] == ""
    ensures CString(NativeJoined(args) + "\0") == Joined(Seen(args))
  {
    EmptyQuoted();
    hide Quoted, CString;
    var rest := if |args| == 1 then "\0" else " " + NativeJoined(args[1..]) + "\0";
    assert NativeJoined(args) + "\0" == "\"\"" + ("\0" + rest);
    CStringAppend("\"\"", "\0" + rest);
    NothingBeforeNul(rest);
  }

  lemma NothingBeforeNul(rest: string)
    ensures CString("\0" + rest) == ""
  {
  }

  lemma SeenOne(args: seq<string>)
    requires |args| == 1 && args[0] != "" && '\0' !in args[0]
    ensures CString(NativeJoined(args) + "\0") == Joined(Seen(args))
  {
    QuotedNul(args[0]);
    hide Quoted;
    CStringAppend(Quoted(args[0]), "\0");
    assert Seen(args[1..]) == [];
  }

  lemma NativeLonger(args: seq<string>)
    requires |args| > 1 && args[0] != ""
    ensures NativeJoined(args) + "\0" == (Quoted(args[0]) + " ") + (NativeJoined(args[1..]) + "\0")
  {
    hide Quoted;
  }

  lemma SeenOfLonger(args: seq<string>)
    requires |args| > 1 && args[0] != ""
    ensures Joined(Seen(args)) == Quoted(args[0]) + " " + Joined(Seen(args[1..]))
  {
    hide Quoted;
    var seen := Seen(args[1..]);
    assert |seen| > 0;
    assert ([args[0]] + seen)[1..] == seen;
  }

  lemma EmptyQuoted()
    ensures Quoted("") == "\"\""
  {
  }

  lemma {:induction false} SeenAllIff(args: seq<string>)
    ensures Seen(args) == args <==> forall i :: 0 <= i < |args| - 1 ==> args[i] != ""
  {
    if args != [] {
      SeenAllIff(args[1..]);
      assert args == [args[0]] + args[1..];
      assert forall i :: 0 <= i < |args| - 2 ==> args[1..][i] == args[i + 1];
      assert |args| > 1 && args[0] != "" ==>
        ((forall i :: 0 <= i < |args| - 1 ==> args[i] != "") <==>
         (forall i :: 0 <= i < |args[1..]| - 1 ==> args[1..][i] != ""));
    }
  }

  /** A started program gets exactly its arguments if and only if none has a NUL and none but the last is empty. */
  lemma StartedWithIff(args: seq<string>)
    ensures Arguments(NativeJoined(args) + "\0") == args
       <==> NoNul(args) && forall i :: 0 <= i < |args| - 1 ==> args[i] != ""
  {
    if NoNul(args) {
      SeenOfLine(args);
      ReadsJoined(Seen(args));
      SeenAllIff(args);
    } else {
      ReadArgsNul(CString(NativeJoined(args) + "\0"));
    }
  }

  // ----- what is quoted, and how

  /** An argument without blanks, tabs and quotes is left as it is, unless it is empty; every other is in quotes. */
  lemma QuotedOnlyIfNeeded(s: string)
    ensures Quoted(s) == s <==> s != "" && ' ' !in s && '\t' !in s && '"' !in s
    ensures Quoted(s) != s ==> |Quoted(s)| >= 2 && Quoted(s)[0] == '"' && Quoted(s)[|Quoted(s)| - 1] == '"'
  {
    EscapedGrows(s);
  }

  lemma {:induction false} EscapedGrows(s: string)
    ensures |Escaped(s)| >= |s|
  {
    if s != "" {
      EscapedGrows(s[1..]);
    }
  }

  /** Backslashes that no quote follows stay as they are. */
  lemma {:induction false} BackslashesStay(s: string)
    requires '"' !in s && (s != "" ==> s[|s| - 1] != '\\')
    ensures Escaped(s) == s
  {
    if s != "" {
      NoQuoteAhead(s);
      BackslashesStay(s[1..]);
      assert s == [s[0]] + s[1..];
    }
  }

  lemma {:induction false} NoQuoteAhead(s: string)
    requires s != "" && '"' !in s && s[|s| - 1] != '\\'
    ensures !SlashesToQuote(s)
  {
    if |s| > 1 {
      NoQuoteAhead(s[1..]);
    }
  }

  /** Backslashes before a quote are doubled and one more is put before the quote; at the end they are doubled. */
  lemma {:induction false} SlashesEscaped(n: nat, s: string)
    ensures Escaped(Slashes(n) + ("\"" + s)) == Slashes(2 * n + 1) + "\"" + Escaped(s)
    ensures Escaped(Slashes(n)) == Slashes(2 * n)
  {
    hide Escaped, SlashesToQuote;
    QuoteEscaped(s);
    if n == 0 {
      assert Slashes(0) + ("\"" + s) == "\"" + s && Slashes(1) + "\"" == "\\\"" && Slashes(0) == "";
    } else {
      SlashesEscaped(n - 1, s);
      SlashesReach(n - 1, s);
      SlashEscaped(Slashes(n - 1) + ("\"" + s));
      SlashEscaped(Slashes(n - 1));
      MoreSlashes(n, s);
    }
  }

  lemma MoreSlashes(n: nat, s: string)
    requires n > 0
    ensures Slashes(n) + ("\"" + s) == "\\" + (Slashes(n - 1) + ("\"" + s)) && Slashes(n) == "\\" + Slashes(n - 1)
    ensures Slashes(2 * n + 1) + "\"" == "\\\\" + (Slashes(2 * n - 1) + "\"")
    ensures Slashes(2 * n) == "\\\\" + Slashes(2 * n - 2)
    ensures Slashes(2 * n + 1) + "\"" + Escaped(s) == "\\\\" + (Slashes(2 * n - 1) + "\"" + Escaped(s))
  {
    hide Escaped;
  }

  lemma QuoteEscaped(s: string)
    ensures Escaped("\"" + s) == "\\\"" + Escaped(s) && Escaped("") == ""
  {
    assert ("\"" + s)[1..] == s;
  }

  lemma SlashEscaped(t: string)
    requires SlashesToQuote(t)
    ensures Escaped("\\" + t) == "\\\\" + Escaped(t)
  {
    assert ("\\" + t)[1..] == t;
  }

  lemma {:induction false} SlashesReach(n: nat, s: string)
    ensures SlashesToQuote(Slashes(n) + ("\"" + s)) && SlashesToQuote(Slashes(n))
  {
    if n > 0 {
      SlashesReach(n - 1, s);
      assert (Slashes(n) + ("\"" + s))[1..] == Slashes(n - 1) + ("\"" + s) && Slashes(n)[1..] == Slashes(n - 1);
    }
  }

  /** Arguments are one blank apart. */
  lemma SomeJoined()
    ensures Joined(["a", "b c", ""]) == "a \"b c\" \"\""
  {
    assert Quoted("a") == "a" && Quoted("") == "\"\"";
    BackslashesStay("b c");
    assert Quoted("b c") == "\"b c\"" by {
      assert "b c"[1] == ' ';
    }
    hide Quoted;
    assert ["a", "b c", ""][1..] == ["b c", ""] && ["b c", ""][1..] == [""];
    assert Joined([""]) == Quoted("");
    assert Joined(["b c", ""]) == Quoted("b c") + " " + Joined([""]);
  }
}
