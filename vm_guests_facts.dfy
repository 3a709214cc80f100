/**
 What the guest-list extractor guarantees, stated over the stage functions of
 module VmGuests: the guest-number removal is a clean prefix cut, every stage
 preserves the order of the dump, the split of a survivor is a no-op, the
 printed string is each guest followed by one space (or "None", or the error
 message), and a line whose space-free text ends with ".com" always survives.
 */
module VmGuestsFacts {
  import opened PyStrings
  import opened VmGuests

  // ---------------------------------------------------------------------
  // Guest-number removal
  // ---------------------------------------------------------------------

  /** Removing the guest number a second time changes nothing. */
  lemma RemoveGuestNumberIdempotent(s: string)
    ensures RemoveGuestNumber(RemoveGuestNumber(s)) == RemoveGuestNumber(s)
  {
    RemoveGuestNumberSpec(s);
  }

  /** The number removal stops before any non-digit, so it keeps a suffix that starts with one. */
  lemma RemoveGuestNumberKeepsSuffix(s: string, suffix: string)
    requires EndsWith(s, suffix) && suffix != [] && !IsDigit(suffix[0])
    ensures EndsWith(RemoveGuestNumber(s), suffix)
  {
    var r := RemoveGuestNumber(s);
    RemoveGuestNumberSpec(s);
    var p := |s| - |suffix|;
    assert s[p] == suffix[0];
    assert |r| >= |suffix|;
    assert r[|r| - |suffix|..] == s[p..];
  }

  // ---------------------------------------------------------------------
  // Order: every stage distributes over concatenation of the dump
  // ---------------------------------------------------------------------

  lemma {:induction false} VirshListConcat(a: seq<string>, b: seq<string>)
    ensures VirshList(a + b) == VirshList(a) + VirshList(b)
  {
    if a == [] {
      assert a + b == b;
    } else {
      assert (a + b)[0] == a[0] && (a + b)[1..] == a[1..] + b;
      VirshListConcat(a[1..], b);
    }
  }

  lemma {:induction false} GuestListConcat(a: seq<string>, b: seq<string>)
    ensures GuestList(a + b) == GuestList(a) + GuestList(b)
  {
    if a == [] {
      assert a + b == b;
    } else {
      assert (a + b)[0] == a[0] && (a + b)[1..] == a[1..] + b;
      GuestListConcat(a[1..], b);
    }
  }

  /** The filter keeps the survivors of each part in place: no reordering across parts. */
  lemma {:induction false} SurvivorsConcat(a: seq<string>, b: seq<string>)
    ensures Survivors(a + b) == Survivors(a) + Survivors(b)
  {
    if a == [] {
      assert a + b == b;
    } else {
      assert (a + b)[0] == a[0] && (a + b)[1..] == a[1..] + b;
      SurvivorsConcat(a[1..], b);
      var h := if EndsWith(a[0], GuestSuffix) then [a[0]] else [];
      calc {
        Survivors(a + b);
        h + Survivors(a[1..] + b);
        h + (Survivors(a[1..]) + Survivors(b));
        (h + Survivors(a[1..])) + Survivors(b);
      }
    }
  }

  /** A one-line dump yields that line's cleaned guest name when it ends with ".com", and nothing otherwise. */
  lemma GuestsOfLine(line: string)
    ensures Guests([line]) ==
      if line != "" && EndsWith(RemoveGuestNumber(CleanLine(line)), GuestSuffix)
      then [RemoveGuestNumber(CleanLine(line))] else []
  {
    assert [line][1..] == [];
  }

  /**
   The guests of a dump are the guests of its first part followed by those of
   the rest: the output follows the order of the input lines.
   */
  lemma GuestsConcat(a: seq<string>, b: seq<string>)
    ensures Guests(a + b) == Guests(a) + Guests(b)
  {
    VirshListConcat(a, b);
    GuestListConcat(VirshList(a), VirshList(b));
    SurvivorsConcat(GuestList(VirshList(a)), GuestList(VirshList(b)));
  }

  // ---------------------------------------------------------------------
  // The split of a survivor is the one-element list holding it
  // ---------------------------------------------------------------------

  /** No guest-list line holds a space: the cleanup removed them and the number removal keeps a suffix. */
  lemma GuestListNoSpaces(lines: seq<string>)
    ensures forall x :: x in GuestList(VirshList(lines)) ==> ' ' !in x
  {
    var vl := VirshList(lines);
    var gl := GuestList(vl);
    VirshListNoSpaces(lines);
    forall x | x in gl ensures ' ' !in x {
      var k :| 0 <= k < |gl| && gl[k] == x;
      var v := vl[k];
      assert v in vl;
      GuestListAt(vl, k);
      RemoveGuestNumberSpec(v);
      assert InfixAt(x, v, |v| - |x|);
      InfixMembers(x, v, ' ');
    }
  }

  /** Each element of the split filter output is `[x]` for the matching survivor `x`. */
  lemma OutputIsSingletons(lines: seq<string>)
    ensures var out := Output(GuestList(VirshList(lines)));
      |out| == |Guests(lines)| && forall k :: 0 <= k < |out| ==> out[k] == [Guests(lines)[k]]
  {
    var gl := GuestList(VirshList(lines));
    var out := Output(gl);
    var sv := Survivors(gl);
    GuestListNoSpaces(lines);
    OutputSpec(gl);
    SurvivorsSpec(gl);
    forall k | 0 <= k < |out| ensures out[k] == [sv[k]] {
      assert sv[k] in sv;
      assert multiset(sv)[sv[k]] > 0;
      assert sv[k] in gl;
      SplitWithoutSeparator(sv[k], ' ');
    }
  }

  // ---------------------------------------------------------------------
  // The printed string
  // ---------------------------------------------------------------------

  /** Sum over the names of their length plus one. */
  function Width(xs: seq<string>): nat {
    if xs == [] then 0 else |xs[0]| + 1 + Width(xs[1..])
  }

  /**
   Each name followed by one space, in order: the reference form of the
   printed guest list.
   */
  function SpaceTerminated(xs: seq<string>): (r: string)
    ensures |r| == Width(xs)
    ensures xs != [] ==> r[|r| - 1] == ' '
  {
    if xs == [] then [] else xs[0] + " " + SpaceTerminated(xs[1..])
  }

  lemma {:induction false} SpaceTerminatedSnoc(xs: seq<string>, x: string)
    ensures SpaceTerminated(xs + [x]) == SpaceTerminated(xs) + x + " "
  {
    if xs != [] {
      assert (xs + [x])[0] == xs[0] && (xs + [x])[1..] == xs[1..] + [x];
      SpaceTerminatedSnoc(xs[1..], x);
    } else {
      assert [x][1..] == [];
    }
  }

  /** When every item is a one-element list, the loop's accumulation is each name followed by a space. */
  lemma {:induction false} AccumulatedOfSingletons(items: seq<seq<string>>, xs: seq<string>)
    requires |items| == |xs|
    requires forall k :: 0 <= k < |items| ==> items[k] == [xs[k]]
    ensures Accumulated(items) == SpaceTerminated(xs)
    decreases |xs|
  {
    if xs != [] {
      var n := |xs| - 1;
      AccumulatedOfSingletons(items[..n], xs[..n]);
      assert Join(" ", items[n]) == xs[n];
      SpaceTerminatedSnoc(xs[..n], xs[n]);
      assert xs[..n] + [xs[n]] == xs;
    }
  }

  /** A missing file prints exactly the error message. */
  lemma ReportMissingFile()
    ensures Report(None) == "ERROR: No vm guest file on host!"
  {
  }

  /** When some line survives, the output is every guest name followed by one space, in order. */
  lemma ReportListsGuests(lines: seq<string>)
    requires Guests(lines) != []
    ensures Report(Some(lines)) == SpaceTerminated(Guests(lines))
    ensures EndsWith(Report(Some(lines)), " ")
    ensures |Report(Some(lines))| == Width(Guests(lines))
  {
    var out := Output(GuestList(VirshList(lines)));
    OutputIsSingletons(lines);
    AccumulatedOfSingletons(out, Guests(lines));
    var r := Report(Some(lines));
    assert r[|r| - 1..] == [r[|r| - 1]];
  }

  /** The output is exactly "None" if and only if no line survives. */
  lemma ReportNoneIffNoGuests(lines: seq<string>)
    ensures Report(Some(lines)) == "None" <==> Guests(lines) == []
  {
    OutputSpec(GuestList(VirshList(lines)));
    if Guests(lines) != [] {
      ReportListsGuests(lines);
      var r := Report(Some(lines));
      assert r[|r| - 1] == ' ';
    }
  }

  /** A file that could be read never prints the error message. */
  lemma ReportOfFileIsNotError(lines: seq<string>)
    ensures Report(Some(lines)) != ErrorMessage
  {
    OutputSpec(GuestList(VirshList(lines)));
    if Guests(lines) != [] {
      ReportListsGuests(lines);
      var r := Report(Some(lines));
      assert r[|r| - 1] == ' ';
      assert ErrorMessage[|ErrorMessage| - 1] == '!';
    }
  }

  // ---------------------------------------------------------------------
  // Which lines survive
  // ---------------------------------------------------------------------

  /**
   A line whose space-free, newline-stripped text ends with ".com" survives:
   neither '.' nor 'm' is in any strip set, and the number removal stops at
   the '.'.
   */
  lemma LineSurvives(line: string)
    requires EndsWith(Strip(RemoveAll(line, ' '), "\n"), GuestSuffix)
    ensures EndsWith(RemoveGuestNumber(CleanLine(line)), GuestSuffix)
    ensures Guests([line]) == [RemoveGuestNumber(CleanLine(line))]
  {
    var s1 := Strip(RemoveAll(line, ' '), "\n");
    StripKeepsSuffix(s1, RunningChars, GuestSuffix);
    StripKeepsSuffix(Strip(s1, RunningChars), IdleChars, GuestSuffix);
    StripKeepsSuffix(Strip(Strip(s1, RunningChars), IdleChars), NoStateChars, GuestSuffix);
    RemoveGuestNumberKeepsSuffix(CleanLine(line), GuestSuffix);
    assert line != "";
    GuestsOfLine(line);
  }

  /** A run of digits followed by a name that does not start with one loses exactly the digits. */
  lemma {:induction false} RemoveGuestNumberOfRow(num: string, name: string)
    requires forall k :: 0 <= k < |num| ==> IsDigit(num[k])
    requires name == [] || !IsDigit(name[0])
    ensures RemoveGuestNumber(num + name) == name
    decreases |num|
  {
    if num == [] {
      assert num + name == name;
    } else {
      assert (num + name)[1..] == num[1..] + name;
      RemoveGuestNumberOfRow(num[1..], name);
    }
  }

  lemma DigitNotStripped(c: char)
    requires IsDigit(c)
    ensures c !in "\n" && c !in RunningChars && c !in IdleChars && c !in NoStateChars
  {
  }

  /**
   A row of the listing for a guest in state "running", "idle" or "no state"
   (spaces anywhere, a numeric index first) yields exactly the guest's name:
   the state's characters are all in the strip sets, the index's digits in
   none of them, and the name ends with 'm', which no strip removes. The row
   ends with a newline, or with nothing when it is the file's last line.
   */
  lemma VirshRowYieldsName(line: string, num: string, name: string, state: string, nl: string)
    requires nl == "" || nl == "\n"
    requires RemoveAll(line, ' ') == num + name + state + nl
    requires num != [] && forall k :: 0 <= k < |num| ==> IsDigit(num[k])
    requires EndsWith(name, GuestSuffix) && !IsDigit(name[0])
    requires state == "running" || state == "idle" || state == "nostate"
    ensures CleanLine(line) == num + name
    ensures Guests([line]) == [name]
  {
    var body := num + name;
    assert body[0] == num[0];
    DigitNotStripped(num[0]);
    assert body[|body| - 1] == 'm' by {
      assert body[|body| - 1] == name[|name| - 1] == GuestSuffix[3];
    }
    assert (body + state) + nl == num + name + state + nl;
    assert (body + state)[|body + state| - 1] == state[|state| - 1];
    StripTail(body + state, nl, "\n");
    StripStatesOfRow(body, state);
    RemoveGuestNumberOfRow(num, name);
    assert line != "";
    GuestsOfLine(line);
  }

  /** The state word after a name is cut off by the three state strips, and the name is kept. */
  lemma StripStatesOfRow(body: string, state: string)
    requires body != [] && IsDigit(body[0]) && body[|body| - 1] == 'm'
    requires state == "running" || state == "idle" || state == "nostate"
    ensures StripStates(body + state) == body
  {
    DigitNotStripped(body[0]);
    assert (body + state)[0] == body[0];
    if state == "running" {
      StripTail(body, state, RunningChars);
      StripNothing(body, IdleChars);
      StripNothing(body, NoStateChars);
    } else if state == "idle" {
      StripNothing(body + state, RunningChars);
      StripTail(body, state, IdleChars);
      StripNothing(body, NoStateChars);
    } else {
      StripNothing(body + state, RunningChars);
      assert body + state == (body + "nostat") + "e";
      StripTail(body + "nostat", "e", IdleChars);
      StripTail(body, "nostat", NoStateChars);
    }
  }

  /** A dump with exactly one guest prints that guest's name and one space. */
  lemma ReportOfOneGuest(lines: seq<string>, name: string)
    requires Guests(lines) == [name]
    ensures Report(Some(lines)) == name + " "
  {
    ReportListsGuests(lines);
    assert SpaceTerminated([name]) == name + " " + SpaceTerminated([]);
  }

  /** A space-free word, one space, then the rest: the word is kept and the space dropped. */
  lemma RemoveSpaceAfterWord(word: string, rest: string)
    requires ' ' !in word
    ensures RemoveAll(word + " " + rest, ' ') == word + RemoveAll(rest, ' ')
  {
    assert word + " " + rest == word + ([' '] + rest);
    RemoveAllConcat(word, [' '] + rest, ' ');
    RemoveAllAbsent(word, ' ');
    assert ([' '] + rest)[1..] == rest;
  }

  /** Spaces between the fields of a row disappear in the cleanup's first step. */
  lemma RemoveSpacesOfRow(line: string, num: string, name: string, state: string)
    requires line == num + " " + name + " " + state + "\n"
    requires ' ' !in num && ' ' !in name && ' ' !in state
    ensures RemoveAll(line, ' ') == num + name + state + "\n"
  {
    var tail := state + "\n";
    RemoveAllAbsent(tail, ' ');
    var mid := name + " " + tail;
    RemoveSpaceAfterWord(name, tail);
    assert line == num + " " + mid;
    RemoveSpaceAfterWord(num, mid);
  }

  /**
   The dump row "1 guest01.example.com running" yields the bare host name,
   printed with one trailing space. The literals are parameters pinned by
   `requires`, so that the solver does not unfold the string functions on them.
   */
  lemma ExampleRunningGuest(line: string, num: string, name: string)
    requires num == "1" && name == "guest01.example.com"
    requires line == num + " " + name + " running\n"
    ensures CleanLine(line) == num + name
    ensures Guests([line]) == [name]
    ensures Report(Some([line])) == name + " "
  {
    RemoveSpacesOfRow(line, num, name, "running");
    VirshRowYieldsName(line, num, name, "running", "\n");
    ReportOfOneGuest([line], name);
  }

  /**
   A name can only come from a line containing each character of ".com":
   the printed name is a block of the line with its spaces removed.
   */
  lemma LineWithoutSuffixCharIsDropped(line: string, c: char)
    requires c in GuestSuffix && c !in line
    ensures Guests([line]) == []
  {
    CleanLineMembers(line, c);
    NumberlessMembers(CleanLine(line), c);
    GuestsOfLine(line);
  }

  /** The cleanup only deletes characters, so it never introduces one the line lacks. */
  lemma CleanLineMembers(line: string, c: char)
    requires c !in line
    ensures c !in CleanLine(line)
  {
    var s0 := RemoveAll(line, ' ');
    RemoveAllSpec(line, ' ');
    assert multiset(s0)[c] == 0;
    CleanLineSpec(line);
    InfixMembers(CleanLine(line), s0, c);
  }

  /** A cleaned line lacking a character of ".com" cannot end with ".com" once its number is removed. */
  lemma NumberlessMembers(cleaned: string, c: char)
    requires c in GuestSuffix && c !in cleaned
    ensures !EndsWith(RemoveGuestNumber(cleaned), GuestSuffix)
  {
    var r := RemoveGuestNumber(cleaned);
    RemoveGuestNumberSpec(cleaned);
    assert InfixAt(r, cleaned, |cleaned| - |r|);
    InfixMembers(r, cleaned, c);
    SuffixMembers(r, GuestSuffix, c);
  }

  /**
   A line whose name does not end with ".com" is filtered out, so nothing is
   listed. The row is a parameter pinned by `requires`, so that the solver does
   not unfold the string functions on the literal.
   */
  lemma ExampleForeignDomain(line: string)
    requires line == "2 foo.org idle\n"
    ensures Report(Some([line])) == "None"
  {
    LineWithoutSuffixCharIsDropped(line, 'c');
    ReportNoneIffNoGuests([line]);
  }

  /** A character that none of the cleanup's steps removes when it stands at an end. */
  predicate Kept(c: char) {
    c != ' ' && c !in "\n" && c !in RunningChars && c !in IdleChars && c !in NoStateChars
  }

  /** A string whose two ends are kept passes every strip of the cleanup unchanged. */
  lemma KeptEnds(x: string)
    requires x != [] && Kept(x[0]) && Kept(x[|x| - 1])
    ensures Strip(x, "\n") == x && Strip(x, RunningChars) == x
    ensures Strip(x, IdleChars) == x && Strip(x, NoStateChars) == x
  {
    StripNothing(x, "\n");
    StripNothing(x, RunningChars);
    StripNothing(x, IdleChars);
    StripNothing(x, NoStateChars);
  }

  /**
   A space-free line that starts with letters of "running" loses all of them,
   up to the first character no strip removes.
   */
  lemma RunningLettersCut(p: string, x: string)
    requires ' ' !in p && ' ' !in x
    requires forall k :: 0 <= k < |p| ==> p[k] in RunningChars
    requires x != [] && Kept(x[0]) && Kept(x[|x| - 1])
    ensures CleanLine(p + x) == x
  {
    var s := p + x;
    assert ' ' !in s;
    RemoveAllAbsent(s, ' ');
    assert s[|s| - 1] == x[|x| - 1];
    assert s[0] == if p == [] then x[0] else p[0];
    StripNothing(s, "\n");
    assert forall k :: 0 <= k < |p| ==> s[k] == p[k];
    assert s[|p|] == x[0];
    StripUnique(s, RunningChars, |p|, |s|);
    assert s[|p|..|s|] == x;
    KeptEnds(x);
  }

  /**
   The strips remove characters, not words: the leading "ngin" of "nginx"
   belongs to the character set of "running" and is cut off. The name is a
   parameter pinned by `requires`, so that the solver does not unfold the
   string functions on the literal.
   */
  lemma ExampleCharacterSetStrip(s: string)
    requires s == "nginx.example.com"
    ensures CleanLine(s) == "x.example.com"
  {
    assert s == s[..4] + s[4..];
    RunningLettersCut(s[..4], s[4..]);
  }
}
