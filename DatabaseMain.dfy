/** The console of the database tool (SQLite/main.cpp): each input line is
    classified into a command, with `calculateTime` and `printUserData`
    split into whitespace-separated tokens as `std::istream_iterator<std::string>`
    does. Running a command (a query, the help text) is not modelled. */
module DatabaseMain {

  /** The characters `std::isspace` accepts in the "C" locale. */
  predicate IsSpace(c: char): (b: bool)
    ensures b ==> c as int <= 32
  {
    c == ' ' || c == '\t' || c == '\n' || c == '\r' || c == 11 as char || c == 12 as char
  }

  predicate NoSpace(w: string) {
    forall i :: 0 <= i < |w| ==> !IsSpace(w[i])
  }

  predicate StartsWith(s: string, prefix: string) {
    |prefix| <= |s| && s[..|prefix|] == prefix
  }

  /** The length of the run of non-whitespace at the front of s. */
  function WordLength(s: string): (n: nat)
    ensures n <= |s|
    ensures forall i :: 0 <= i < n ==> !IsSpace(s[i])
    ensures n < |s| ==> IsSpace(s[n])
  {
    if s == [] || IsSpace(s[0]) then 0 else 1 + WordLength(s[1..])
  }

  /** The tokens of a line: its maximal runs of non-whitespace, in order. */
  function Tokens(s: string): (ts: seq<string>)
    ensures forall k :: 0 <= k < |ts| ==> |ts[k]| > 0 && NoSpace(ts[k])
    decreases |s|
  {
    if s == [] then []
    else if IsSpace(s[0]) then Tokens(s[1..])
    else
      var n := WordLength(s);
      [s[..n]] + Tokens(s[n..])
  }

  /** Words joined by single spaces. */
  function JoinSpaces(words: seq<string>): string {
    if |words| <= 1 then (if words == [] then "" else words[0])
    else words[0] + " " + JoinSpaces(words[1..])
  }

  /** A word followed by nothing or by whitespace is read whole. */
  lemma {:induction false} WordLengthOfWord(w: string, rest: string)
    requires NoSpace(w)
    requires rest == [] || IsSpace(rest[0])
    ensures WordLength(w + rest) == |w|
    decreases |w|
  {
    if w != [] {
      assert (w + rest)[1..] == w[1..] + rest;
      WordLengthOfWord(w[1..], rest);
    } else {
      assert w + rest == rest;
    }
  }

  /** Tokenising a line that starts with a word gives that word, then the
      tokens of the rest. */
  lemma TokensOfWord(w: string, rest: string)
    requires |w| > 0 && NoSpace(w)
    requires rest == [] || IsSpace(rest[0])
    ensures Tokens(w + rest) == [w] + Tokens(rest)
  {
    WordLengthOfWord(w, rest);
    assert (w + rest)[..|w|] == w;
    assert (w + rest)[|w|..] == rest;
  }

  /** Whitespace in front of a line is skipped, however much and of whatever
      kind. */
  lemma {:induction false} TokensSkipSpaces(ws: string, s: string)
    requires forall i :: 0 <= i < |ws| ==> IsSpace(ws[i])
    ensures Tokens(ws + s) == Tokens(s)
    decreases |ws|
  {
    if ws != [] {
      assert (ws + s)[0] == ws[0];
      assert (ws + s)[1..] == ws[1..] + s;
      TokensSkipSpaces(ws[1..], s);
    } else {
      assert ws + s == s;
    }
  }

  /** The tokens laid end to end. */
  function Flatten(ts: seq<string>): string {
    if ts == [] then "" else ts[0] + Flatten(ts[1..])
  }

  /** The characters of s that are not whitespace, in order. */
  function NonSpaceChars(s: string): string {
    if s == [] then "" else (if IsSpace(s[0]) then "" else [s[0]]) + NonSpaceChars(s[1..])
  }

  /** NonSpaceChars distributes over concatenation. */
  lemma {:induction false} NonSpaceCharsAppend(a: string, b: string)
    ensures NonSpaceChars(a + b) == NonSpaceChars(a) + NonSpaceChars(b)
    decreases |a|
  {
    if a == [] {
      assert a + b == b;
    } else {
      assert (a + b)[0] == a[0];
      assert (a + b)[1..] == a[1..] + b;
      NonSpaceCharsAppend(a[1..], b);
    }
  }

  /** A whitespace-free text keeps all its characters. */
  lemma {:induction false} NonSpaceCharsOfWord(w: string)
    requires NoSpace(w)
    ensures NonSpaceChars(w) == w
    decreases |w|
  {
    if w != [] {
      NonSpaceCharsOfWord(w[1..]);
      assert [w[0]] + w[1..] == w;
    }
  }

  /** Tokenising loses and reorders nothing: the tokens, laid end to end,
      are exactly the line's non-whitespace characters. With the ensures of
      Tokens and WordLength (each token is a whole run, ended by whitespace or
      the end of the line) the tokens are the maximal runs. */
  lemma {:induction false} TokensKeepNonSpace(s: string)
    ensures Flatten(Tokens(s)) == NonSpaceChars(s)
    decreases |s|
  {
    if s != [] {
      if IsSpace(s[0]) {
        TokensKeepNonSpace(s[1..]);
      } else {
        var n := WordLength(s);
        TokensKeepNonSpace(s[n..]);
        assert Tokens(s)[1..] == Tokens(s[n..]);
        assert s == s[..n] + s[n..];
        NonSpaceCharsAppend(s[..n], s[n..]);
        NonSpaceCharsOfWord(s[..n]);
      }
    }
  }

  /** Round trip: non-empty whitespace-free words joined by single spaces
      tokenise back into the same words. */
  lemma {:induction false} TokensOfJoinSpaces(words: seq<string>)
    requires forall k :: 0 <= k < |words| ==> |words[k]| > 0 && NoSpace(words[k])
    ensures Tokens(JoinSpaces(words)) == words
    decreases |words|
  {
    if |words| == 1 {
      TokensOfWord(words[0], []);
      assert words[0] + [] == words[0];
    } else if |words| > 1 {
      var rest := JoinSpaces(words[1..]);
      TokensOfJoinSpaces(words[1..]);
      assert words[0] + " " + rest == words[0] + (" " + rest);
      TokensOfWord(words[0], " " + rest);
      assert (" " + rest)[1..] == rest;
      assert [words[0]] + words[1..] == words;
    }
  }

  /** What a console line asks for. */
  datatype Command =
    | Exit
    | PrintAll
    | Help
    | Calculate(user: string, date: string)
    | CalculateUsage   // a `calculateTime` line without exactly three tokens
    | PrintUser(user: string)
    | PrintUserUsage   // a `printUserData` line without exactly two tokens
    | Unknown

  /** The classification inside `DataBaseIOThread`: the exact lines first,
      then the `calculateTime` prefix, then the `printUserData` prefix. */
  function Classify(line: string): (c: Command)
    ensures c == Exit <==> line == "exit"
    ensures c == PrintAll <==> line == "printAll"
    ensures c == Help <==> line == "help"
    ensures c.Calculate? || c == CalculateUsage <==> StartsWith(line, "calculateTime")
    ensures c.PrintUser? || c == PrintUserUsage <==> StartsWith(line, "printUserData")
    ensures c.Calculate? <==> StartsWith(line, "calculateTime") && |Tokens(line)| == 3
    ensures c.Calculate? ==> c.user == Tokens(line)[1] && c.date == Tokens(line)[2]
    ensures c.PrintUser? <==> StartsWith(line, "printUserData") && |Tokens(line)| == 2
    ensures c.PrintUser? ==> c.user == Tokens(line)[1]
  {
    if line == "exit" then Exit
    else if line == "printAll" then PrintAll
    else if line == "help" then Help
    else if StartsWith(line, "calculateTime") then
      var tokens := Tokens(line);
      if |tokens| != 3 then CalculateUsage else Calculate(tokens[1], tokens[2])
    else if StartsWith(line, "printUserData") then
      var tokens := Tokens(line);
      if |tokens| != 2 then PrintUserUsage else PrintUser(tokens[1])
    else Unknown
  }

  /** Every line no rule matches is Unknown, and only those. */
  lemma UnknownIffNoRule(line: string)
    ensures Classify(line) == Unknown <==>
      line != "exit" && line != "printAll" && line != "help" &&
      !StartsWith(line, "calculateTime") && !StartsWith(line, "printUserData")
  {
  }

  /** A `calculateTime` line of three tokens yields its second and third
      token; the first only has to start with `calculateTime`. */
  lemma CalculateRoundTrip(first: string, user: string, date: string)
    requires NoSpace(first) && StartsWith(first, "calculateTime")
    requires |user| > 0 && NoSpace(user) && |date| > 0 && NoSpace(date)
    ensures Classify(first + " " + user + " " + date) == Calculate(user, date)
  {
    var words := [first, user, date];
    assert JoinSpaces(words[2..]) == date;
    assert JoinSpaces(words) == first + " " + user + " " + date;
    TokensOfJoinSpaces(words);
    var line := first + " " + user + " " + date;
    assert line[..13] == first[..13];
  }

  /** A well-formed `printUserData` line yields its user. */
  lemma PrintUserRoundTrip(user: string)
    requires |user| > 0 && NoSpace(user)
    ensures Classify("printUserData " + user) == PrintUser(user)
  {
    var words := ["printUserData", user];
    assert JoinSpaces(words[1..]) == user;
    assert JoinSpaces(words) == "printUserData " + user;
    TokensOfJoinSpaces(words);
    assert StartsWith("printUserData " + user, "printUserData");
    assert ("printUserData " + user)[..13] == "printUserData";
  }

  /** Because the checks are prefix matches, a longer first token is accepted. */
  lemma PrefixAccepted()
    ensures Classify("calculateTimeX a b") == Calculate("a", "b")
  {
    var first := "calculateTimeX";
    assert first[..13] == "calculateTime";
    assert NoSpace(first) by {
      forall i | 0 <= i < |first|
        ensures !IsSpace(first[i])
      {
      }
    }
    CalculateRoundTrip(first, "a", "b");
    assert first + " " + "a" + " " + "b" == "calculateTimeX a b";
  }

  /** The exact matches are exact: leading whitespace or nothing at all is Unknown. */
  lemma ExactMatchesAreExact()
    ensures Classify(" exit") == Unknown
    ensures Classify("") == Unknown
  {
    assert !StartsWith(" exit", "calculateTime");
    assert !StartsWith(" exit", "printUserData");
  }

  /** The commands `DataBaseIOThread` carries out for the given input lines:
      one per line, up to and including the first `exit`. */
  function Session(lines: seq<string>): (r: seq<Command>)
    ensures |r| <= |lines|
  {
    if lines == [] then []
    else if Classify(lines[0]) == Exit then [Exit]
    else [Classify(lines[0])] + Session(lines[1..])
  }

  /** The session classifies the lines in order, stops right after the first
      `exit`, and reads every line when there is none. */
  lemma {:induction false} SessionStopsAtExit(lines: seq<string>)
    ensures var r := Session(lines);
      (forall k :: 0 <= k < |r| ==> r[k] == Classify(lines[k])) &&
      (forall k :: 0 <= k < |r| - 1 ==> r[k] != Exit) &&
      (|r| < |lines| ==> |r| > 0 && r[|r| - 1] == Exit) &&
      ((forall k :: 0 <= k < |lines| ==> lines[k] != "exit") ==> |r| == |lines|)
  {
    if lines != [] && Classify(lines[0]) != Exit {
      SessionStopsAtExit(lines[1..]);
      var r := Session(lines);
      assert r[1..] == Session(lines[1..]);
      forall k | 0 <= k < |r|
        ensures r[k] == Classify(lines[k])
      {
        if k > 0 {
          assert r[k] == Session(lines[1..])[k - 1];
        }
      }
      if forall k :: 0 <= k < |lines| ==> lines[k] != "exit" {
        assert forall k :: 0 <= k < |lines[1..]| ==> lines[1..][k] != "exit" by {
          forall k | 0 <= k < |lines[1..]|
            ensures lines[1..][k] != "exit"
          {
            assert lines[1..][k] == lines[k + 1];
          }
        }
      }
    }
  }

  /** The session from line i on: that line's command, then, unless it was
      `exit`, the session from the next line on. */
  lemma SessionFrom(lines: seq<string>, i: nat)
    requires i < |lines|
    ensures Session(lines[i..]) ==
      if Classify(lines[i]) == Exit then [Exit] else [Classify(lines[i])] + Session(lines[i + 1..])
  {
    assert lines[i..][0] == lines[i];
    assert lines[i..][1..] == lines[i + 1..];
  }

  /** The first n passes of the loop of `DataBaseIOThread` as written, from
      line i on. The loop tests only its flag, so once the lines run out each
      pass reads nothing into its fresh `command`, which stays empty. */
  function Console(lines: seq<string>, i: nat, n: nat): (r: seq<Command>)
    ensures |r| <= n
    decreases n
  {
    if n == 0 then []
    else
      var c := Classify(if i < |lines| then lines[i] else "");
      if c == Exit then [Exit] else [c] + Console(lines, i + 1, n - 1)
  }

  /** Over the lines given, the loop as written carries out exactly Session. */
  lemma {:induction false} ConsoleOverLines(lines: seq<string>, i: nat)
    requires i <= |lines|
    ensures Console(lines, i, |lines| - i) == Session(lines[i..])
    decreases |lines| - i
  {
    if i < |lines| {
      var c := Classify(lines[i]);
      var rest := Console(lines, i + 1, |lines| - (i + 1));
      assert Console(lines, i, |lines| - i) == if c == Exit then [Exit] else [c] + rest;
      SessionFrom(lines, i);
      ConsoleOverLines(lines, i + 1);
    } else {
      assert lines[i..] == [];
    }
  }

  /** Without an `exit` line the loop as written never ends: every number of
      passes is carried out in full, and each pass after the last line is
      Unknown. */
  lemma {:induction false} ConsoleNeverEnds(lines: seq<string>, i: nat, n: nat)
    requires forall k :: i <= k < |lines| ==> lines[k] != "exit"
    ensures |Console(lines, i, n)| == n
    ensures forall k :: 0 <= k < n && i + k >= |lines| ==> Console(lines, i, n)[k] == Unknown
    decreases n
  {
    if n > 0 {
      ConsoleNeverEnds(lines, i + 1, n - 1);
      var r := Console(lines, i, n);
      assert r[1..] == Console(lines, i + 1, n - 1);
      forall k | 0 <= k < n && i + k >= |lines|
        ensures r[k] == Unknown
      {
        if k == 0 {
          ExactMatchesAreExact();
        } else {
          assert r[k] == Console(lines, i + 1, n - 1)[k - 1];
        }
      }
    }
  }

  /** "help" and then the end of input: the loop as written runs help and
      then reports an unknown command on every further pass, while the
      session ends. */
  lemma HelpThenEndOfInput()
    ensures Console(["help"], 0, 3) == [Help, Unknown, Unknown]
    ensures Session(["help"]) == [Help]
  {
  }

  /** The loop of `DataBaseIOThread` with the end of input as a second exit:
      reads lines until `exit` sets the flag or the lines run out. */
  method RunConsole(lines: seq<string>) returns (executed: seq<Command>)
    ensures executed == Session(lines)
  {
    executed := [];
    var exitRequested := false;
    var i := 0;
    assert lines[0..] == lines;
    while !exitRequested && i < |lines|
      invariant 0 <= i <= |lines|
      invariant exitRequested ==> executed == Session(lines)
      invariant !exitRequested ==> executed + Session(lines[i..]) == Session(lines)
      decreases |lines| - i
    {
      var command := Classify(lines[i]);
      SessionFrom(lines, i);
      if command == Exit {
        exitRequested := true;
      } else {
        ghost var rest := Session(lines[i + 1..]);
        assert executed + ([command] + rest) == (executed + [command]) + rest;
      }
      executed := executed + [command];
      i := i + 1;
    }
    if !exitRequested {
      assert lines[i..] == [];
      assert executed + [] == executed;
    }
  }
}
