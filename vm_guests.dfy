/**
 The guest-list extractor: the lines of a cached `virsh list` dump go through
 four list stages (cleanup, guest-number removal, the ".com" filter with its
 split, and the accumulation of the output string), and the result is the one
 string the script prints. A file that cannot be opened yields a fixed error
 message instead.
 */
module VmGuests {
  import opened PyStrings

  datatype Option<T> = None | Some(value: T)

  /** The characters passed to the three chained `strip` calls of the cleanup. */
  const RunningChars: string := "running"
  const IdleChars: string := "idle"
  const NoStateChars: string := "no state"

  /** The sentinel printed when no guest survives the filter. */
  const NoGuests: string := "None"

  /** The message printed when the dump cannot be opened. */
  const ErrorMessage: string := "ERROR: No vm guest file on host!"

  /** The suffix a cleaned line must end with to count as a guest name. */
  const GuestSuffix: string := ".com"

  // ---------------------------------------------------------------------
  // Stage 1: cleanup of one line
  // ---------------------------------------------------------------------

  /**
   One element of the cleanup comprehension: every space removed, newlines
   stripped from both ends, then the characters of "running", "idle" and
   "no state" stripped from both ends, in that order.
   */
  function CleanLine(line: string): string {
    StripStates(Strip(RemoveAll(line, ' '), "\n"))
  }

  /** The three chained strips with the characters of the state words. */
  function StripStates(s: string): string {
    Strip(Strip(Strip(s, RunningChars), IdleChars), NoStateChars)
  }

  /**
   A cleaned line holds no space, and since the strips only cut at the ends,
   it is one contiguous block of the line with its spaces removed.
   */
  lemma CleanLineSpec(line: string)
    ensures ' ' !in CleanLine(line)
    ensures IsInfix(CleanLine(line), RemoveAll(line, ' '))
  {
    var s0 := RemoveAll(line, ' ');
    var s1 := Strip(s0, "\n");
    var s2 := Strip(s1, RunningChars);
    var s3 := Strip(s2, IdleChars);
    var r := Strip(s3, NoStateChars);
    assert r == CleanLine(line);
    StripIsInfix(s0, "\n");
    StripIsInfix(s1, RunningChars);
    StripIsInfix(s2, IdleChars);
    StripIsInfix(s3, NoStateChars);
    InfixTransitive(s2, s1, s0);
    InfixTransitive(s3, s2, s0);
    InfixTransitive(r, s3, s0);
    RemoveAllSpec(line, ' ');
    InfixMembers(r, s0, ' ');
  }

  lemma StripIsInfix(s: string, chars: string)
    ensures IsInfix(Strip(s, chars), s)
  {
    StripSpec(s, chars);
    var i :| StrippedAt(Strip(s, chars), s, chars, i);
    assert InfixAt(Strip(s, chars), s, i);
  }

  /**
   The cleanup comprehension over the lines of the dump, skipping empty
   lines. For a real file no line is empty and the stage is a plain map.
   */
  function VirshList(lines: seq<string>): (vl: seq<string>)
    ensures |vl| <= |lines|
  {
    if lines == [] then []
    else (if lines[0] == "" then [] else [CleanLine(lines[0])]) + VirshList(lines[1..])
  }

  /** No cleaned line holds a space. */
  lemma {:induction false} VirshListNoSpaces(lines: seq<string>)
    ensures forall x :: x in VirshList(lines) ==> ' ' !in x
  {
    if lines != [] {
      VirshListNoSpaces(lines[1..]);
      CleanLineSpec(lines[0]);
    }
  }

  /** When no line is empty, as for lines read from a file, the cleanup is a plain map. */
  lemma VirshListOfFile(lines: seq<string>)
    requires forall k :: 0 <= k < |lines| ==> lines[k] != ""
    ensures |VirshList(lines)| == |lines|
    ensures forall k :: 0 <= k < |lines| ==> VirshList(lines)[k] == CleanLine(lines[k])
  {
    forall k | 0 <= k < |lines| ensures |VirshList(lines)| == |lines| && VirshList(lines)[k] == CleanLine(lines[k]) {
      VirshListAt(lines, k);
    }
    if lines != [] {
      VirshListAt(lines, 0);
    }
  }

  lemma {:induction false} VirshListAt(lines: seq<string>, k: int)
    requires forall j :: 0 <= j < |lines| ==> lines[j] != ""
    requires 0 <= k < |lines|
    ensures |VirshList(lines)| == |lines| && VirshList(lines)[k] == CleanLine(lines[k])
  {
    var rest := lines[1..];
    assert forall j :: 0 <= j < |rest| ==> rest[j] == lines[j + 1];
    if |rest| > 0 {
      VirshListAt(rest, if k == 0 then 0 else k - 1);
    }
    assert VirshList(lines) == [CleanLine(lines[0])] + VirshList(rest);
  }

  // ---------------------------------------------------------------------
  // Stage 2: guest-number removal
  // ---------------------------------------------------------------------

  predicate IsDigit(c: char) {
    '0' <= c <= '9'
  }

  /**
   `re.sub("^[0-9]+", "", s)`: the line is a (possibly empty) run of decimal
   digits followed by the result, and the result does not start with a digit.
   */
  function RemoveGuestNumber(s: string): (r: string)
    ensures |r| <= |s|
    decreases |s|
  {
    if s != [] && IsDigit(s[0]) then RemoveGuestNumber(s[1..]) else s
  }

  lemma {:induction false} RemoveGuestNumberSpec(s: string)
    ensures var r := RemoveGuestNumber(s);
      && r == s[|s| - |r|..]
      && (forall k :: 0 <= k < |s| - |r| ==> IsDigit(s[k]))
      && (r == [] || !IsDigit(r[0]))
    decreases |s|
  {
    if s != [] && IsDigit(s[0]) {
      RemoveGuestNumberSpec(s[1..]);
    }
  }

  /** The guest-number comprehension: RemoveGuestNumber on every cleaned line, in order. */
  function GuestList(vl: seq<string>): (gl: seq<string>)
    ensures |gl| == |vl|
  {
    if vl == [] then [] else [RemoveGuestNumber(vl[0])] + GuestList(vl[1..])
  }

  lemma {:induction false} GuestListAt(vl: seq<string>, k: int)
    requires 0 <= k < |vl|
    ensures GuestList(vl)[k] == RemoveGuestNumber(vl[k])
  {
    if k > 0 {
      GuestListAt(vl[1..], k - 1);
    }
  }

  // ---------------------------------------------------------------------
  // Stage 3: the ".com" filter and its split
  // ---------------------------------------------------------------------

  /**
   The lines of the guest list that end with ".com", in their order: each
   name occurs exactly as many times as in the guest list if it ends with
   ".com", and not at all otherwise.
   */
  function Survivors(gl: seq<string>): (out: seq<string>)
    ensures |out| <= |gl|
  {
    if gl == [] then []
    else (if EndsWith(gl[0], GuestSuffix) then [gl[0]] else []) + Survivors(gl[1..])
  }

  lemma {:induction false} SurvivorsSpec(gl: seq<string>)
    ensures forall x :: x in Survivors(gl) ==> EndsWith(x, GuestSuffix)
    ensures forall x :: multiset(Survivors(gl))[x] == if EndsWith(x, GuestSuffix) then multiset(gl)[x] else 0
  {
    if gl != [] {
      SurvivorsSpec(gl[1..]);
      assert gl == [gl[0]] + gl[1..];
    }
  }

  /** The filter comprehension: `x.split(' ')` for each survivor, in order. */
  function Output(gl: seq<string>): seq<seq<string>> {
    if gl == [] then []
    else (if EndsWith(gl[0], GuestSuffix) then [Split(gl[0], ' ')] else []) + Output(gl[1..])
  }

  /** The split list has one entry per survivor: the survivor's pieces. */
  lemma {:induction false} OutputSpec(gl: seq<string>)
    ensures |Output(gl)| == |Survivors(gl)|
    ensures forall k :: 0 <= k < |Output(gl)| ==> Output(gl)[k] == Split(Survivors(gl)[k], ' ')
  {
    if gl != [] {
      OutputSpec(gl[1..]);
    }
  }

  // ---------------------------------------------------------------------
  // Stage 4: assembling the printed string
  // ---------------------------------------------------------------------

  /** The accumulator after the loop has appended `' '.join(item) + " "` for each item, in order. */
  function Accumulated(items: seq<seq<string>>): string {
    if items == [] then []
    else Accumulated(items[..|items| - 1]) + Join(" ", items[|items| - 1]) + " "
  }

  /** The string printed for a list of split survivors: the accumulation, or "None" when empty. */
  function VmStr(items: seq<seq<string>>): string {
    if |items| > 0 then Accumulated(items) else NoGuests
  }

  /** The output loop with its "None" branch. */
  method AssembleVmStr(output: seq<seq<string>>) returns (vmStr: string)
    ensures vmStr == VmStr(output)
  {
    vmStr := "";
    if |output| > 0 {
      for i := 0 to |output|
        invariant vmStr == Accumulated(output[..i])
      {
        assert output[..i + 1][..i] == output[..i];
        vmStr := vmStr + Join(" ", output[i]) + " ";
      }
      assert output[..|output|] == output;
    } else {
      vmStr := NoGuests;
    }
  }

  // ---------------------------------------------------------------------
  // The whole script
  // ---------------------------------------------------------------------

  /** The guest names that reach the output, in the order of the dump. */
  function Guests(lines: seq<string>): seq<string> {
    Survivors(GuestList(VirshList(lines)))
  }

  /** What the script prints, given the dump's lines or None when the file cannot be opened. */
  function Report(file: Option<seq<string>>): string {
    match file
    case None => ErrorMessage
    case Some(lines) => VmStr(Output(GuestList(VirshList(lines))))
  }

  /** The script's body: the three comprehensions, then the output loop. */
  method GetVmGuests(file: Option<seq<string>>) returns (printed: string)
    ensures printed == Report(file)
  {
    match file {
      case None =>
        printed := ErrorMessage;
      case Some(lines) =>
        var virshList := VirshList(lines);
        var guestList := GuestList(virshList);
        var output := Output(guestList);
        printed := AssembleVmStr(output);
    }
  }
}
