/**
 The few Python string operations that the guest-list script relies on,
 written out with Python 2 semantics: literal single-character replacement,
 `str.strip(chars)` (where `chars` is a set of characters, not a substring),
 `str.split(sep)` with an explicit separator, `sep.join(parts)` and
 `str.endswith(suffix)`.
 */
module PyStrings {

  /** `r` occurs in `s` as the block starting at offset `i`. */
  predicate InfixAt(r: string, s: string, i: int) {
    0 <= i <= |s| - |r| && r == s[i..i + |r|]
  }

  /** `r` occurs in `s` as one contiguous block. */
  ghost predicate IsInfix(r: string, s: string) {
    exists i :: InfixAt(r, s, i)
  }

  lemma {:induction false} InfixMembers(r: string, s: string, c: char)
    requires IsInfix(r, s)
    requires c !in s
    ensures c !in r
  {
    var i :| InfixAt(r, s, i);
    assert forall k :: 0 <= k < |r| ==> r[k] == s[i + k];
  }

  lemma {:induction false} InfixTransitive(a: string, b: string, c: string)
    requires IsInfix(a, b) && IsInfix(b, c)
    ensures IsInfix(a, c)
  {
    var i :| InfixAt(a, b, i);
    var j :| InfixAt(b, c, j);
    assert j + i + |a| <= |c|;
    forall k | 0 <= k < |a| ensures a[k] == c[j + i + k] {
      assert a[k] == b[i + k];
    }
    assert InfixAt(a, c, j + i);
  }

  /** `re.sub(c, '', s)` for a one-character pattern. */
  function RemoveAll(s: string, c: char): string {
    if s == [] then []
    else (if s[0] == c then [] else [s[0]]) + RemoveAll(s[1..], c)
  }

  /** Every `c` is deleted and every other character is kept. */
  lemma {:induction false} RemoveAllSpec(s: string, c: char)
    ensures c !in RemoveAll(s, c)
    ensures multiset(RemoveAll(s, c)) == multiset(s)[c := 0]
  {
    if s != [] {
      RemoveAllSpec(s[1..], c);
      assert s == [s[0]] + s[1..];
    }
  }

  lemma {:induction false} RemoveAllConcat(a: string, b: string, c: char)
    ensures RemoveAll(a + b, c) == RemoveAll(a, c) + RemoveAll(b, c)
  {
    if a == [] {
      assert a + b == b;
    } else {
      var h: string := if a[0] == c then [] else [a[0]];
      assert (a + b)[0] == a[0] && (a + b)[1..] == a[1..] + b;
      calc {
        RemoveAll(a + b, c);
        h + RemoveAll(a[1..] + b, c);
        { RemoveAllConcat(a[1..], b, c); }
        h + (RemoveAll(a[1..], c) + RemoveAll(b, c));
        (h + RemoveAll(a[1..], c)) + RemoveAll(b, c);
        RemoveAll(a, c) + RemoveAll(b, c);
      }
    }
  }

  lemma {:induction false} RemoveAllAbsent(s: string, c: char)
    requires c !in s
    ensures RemoveAll(s, c) == s
  {
    if s != [] {
      RemoveAllAbsent(s[1..], c);
    }
  }

  /** `s.lstrip(chars)`. */
  function LStrip(s: string, chars: string): string
    decreases |s|
  {
    if s != [] && s[0] in chars then LStrip(s[1..], chars) else s
  }

  /** `s.rstrip(chars)`. */
  function RStrip(s: string, chars: string): string
    decreases |s|
  {
    if s != [] && s[|s| - 1] in chars then RStrip(s[..|s| - 1], chars) else s
  }

  /** `s.strip(chars)`: leading characters from `chars` removed, then trailing ones. */
  function Strip(s: string, chars: string): string {
    RStrip(LStrip(s, chars), chars)
  }

  /** lstrip removes exactly the maximal leading run of characters from `chars`. */
  lemma {:induction false} LStripSpec(s: string, chars: string)
    ensures var r := LStrip(s, chars);
      && |r| <= |s| && r == s[|s| - |r|..]
      && (forall k :: 0 <= k < |s| - |r| ==> s[k] in chars)
      && (r == [] || r[0] !in chars)
    decreases |s|
  {
    if s != [] && s[0] in chars {
      LStripSpec(s[1..], chars);
    }
  }

  /** rstrip removes exactly the maximal trailing run of characters from `chars`. */
  lemma {:induction false} RStripSpec(s: string, chars: string)
    ensures var r := RStrip(s, chars);
      && |r| <= |s| && r == s[..|r|]
      && (forall k :: |r| <= k < |s| ==> s[k] in chars)
      && (r == [] || r[|r| - 1] !in chars)
    decreases |s|
  {
    if s != [] && s[|s| - 1] in chars {
      RStripSpec(s[..|s| - 1], chars);
    }
  }

  /**
   strip leaves the block of `s` that remains once the maximal leading and
   trailing runs of characters from `chars` are cut off: the block's own
   first and last characters are not in `chars`.
   */
  lemma StripSpec(s: string, chars: string)
    ensures exists i :: StrippedAt(Strip(s, chars), s, chars, i)
    ensures var r := Strip(s, chars); r == [] || (r[0] !in chars && r[|r| - 1] !in chars)
  {
    var t := LStrip(s, chars);
    var r := RStrip(t, chars);
    LStripSpec(s, chars);
    RStripSpec(t, chars);
    var i := |s| - |t|;
    assert r == s[i..i + |r|] by {
      assert t == s[i..];
      assert r == t[..|r|];
    }
    forall k | i + |r| <= k < |s| ensures s[k] in chars {
      assert s[k] == t[k - i];
    }
    if r != [] {
      assert r[0] == t[0];
    }
    assert Strip(s, chars) == r;
    assert StrippedAt(r, s, chars, i);
  }

  /** `r` is the block of `s` at offset `i`, and everything around it is made of `chars`. */
  predicate StrippedAt(r: string, s: string, chars: string, i: int) {
    && InfixAt(r, s, i)
    && (forall k :: 0 <= k < i ==> s[k] in chars)
    && (forall k :: i + |r| <= k < |s| ==> s[k] in chars)
  }

  lemma {:induction false} LStripAt(s: string, chars: string, i: nat)
    requires i <= |s|
    requires forall k :: 0 <= k < i ==> s[k] in chars
    requires i == |s| || s[i] !in chars
    ensures LStrip(s, chars) == s[i..]
    decreases i
  {
    if i > 0 {
      LStripAt(s[1..], chars, i - 1);
      assert s[1..][i - 1..] == s[i..];
    }
  }

  lemma {:induction false} RStripAt(s: string, chars: string, j: nat)
    requires j <= |s|
    requires forall k :: j <= k < |s| ==> s[k] in chars
    requires j == 0 || s[j - 1] !in chars
    ensures RStrip(s, chars) == s[..j]
    decreases |s| - j
  {
    if j < |s| {
      RStripAt(s[..|s| - 1], chars, j);
      assert s[..|s| - 1][..j] == s[..j];
    }
  }

  /**
   The converse of Strip's contract: any block of `s` whose surroundings are
   made of `chars` and whose own ends are not is exactly `s.strip(chars)`.
   */
  lemma {:induction false} StripUnique(s: string, chars: string, i: nat, j: nat)
    requires i <= j <= |s|
    requires forall k :: 0 <= k < i ==> s[k] in chars
    requires forall k :: j <= k < |s| ==> s[k] in chars
    requires i == j || (s[i] !in chars && s[j - 1] !in chars)
    ensures Strip(s, chars) == s[i..j]
  {
    if i == j {
      forall k | 0 <= k < |s| ensures s[k] in chars {
        if k < i {} else {}
      }
      LStripAt(s, chars, |s|);
    } else {
      LStripAt(s, chars, i);
      RStripBlock(s, chars, i, j);
    }
  }

  lemma RStripBlock(s: string, chars: string, i: nat, j: nat)
    requires i < j <= |s|
    requires forall k :: j <= k < |s| ==> s[k] in chars
    requires s[j - 1] !in chars
    ensures RStrip(s[i..], chars) == s[i..j]
  {
    var t := s[i..];
    forall k | j - i <= k < |t| ensures t[k] in chars {
      assert t[k] == s[i + k];
    }
    RStripAt(t, chars, j - i);
    assert t[..j - i] == s[i..j];
  }

  /** Stripping with the same characters a second time changes nothing. */
  lemma StripIdempotent(s: string, chars: string)
    ensures Strip(Strip(s, chars), chars) == Strip(s, chars)
  {
    var r := Strip(s, chars);
    StripSpec(s, chars);
    StripUnique(r, chars, 0, |r|);
    assert r[0..|r|] == r;
  }

  /** A string whose two ends are not in `chars` is left as it is. */
  lemma StripNothing(s: string, chars: string)
    requires s != [] && s[0] !in chars && s[|s| - 1] !in chars
    ensures Strip(s, chars) == s
  {
    StripUnique(s, chars, 0, |s|);
    assert s[0..|s|] == s;
  }

  /** A trailing run of characters from `chars` after a block whose ends are not in `chars` is cut off. */
  lemma StripTail(body: string, tail: string, chars: string)
    requires body != [] && body[0] !in chars && body[|body| - 1] !in chars
    requires forall k :: 0 <= k < |tail| ==> tail[k] in chars
    ensures Strip(body + tail, chars) == body
  {
    var s := body + tail;
    forall k | |body| <= k < |s| ensures s[k] in chars {
      assert s[k] == tail[k - |body|];
    }
    StripUnique(s, chars, 0, |body|);
    assert s[0..|body|] == body;
  }

  /** Stripping leaves a suffix in place when its first and last characters are not in `chars`. */
  lemma StripKeepsSuffix(s: string, chars: string, suffix: string)
    requires EndsWith(s, suffix) && suffix != []
    requires suffix[0] !in chars && suffix[|suffix| - 1] !in chars
    ensures EndsWith(Strip(s, chars), suffix)
  {
    var t := LStrip(s, chars);
    LStripSpec(s, chars);
    var p := |s| - |suffix|;
    assert s[p] == suffix[0];
    assert |t| >= |suffix|;
    assert t[|t| - |suffix|..] == suffix;
    assert t[|t| - 1] == suffix[|suffix| - 1];
    RStripAt(t, chars, |t|);
    assert t[..|t|] == t;
  }

  /** `s.endswith(suffix)`. */
  predicate EndsWith(s: string, suffix: string) {
    |suffix| <= |s| && s[|s| - |suffix|..] == suffix
  }

  /** Every character of a suffix occurs in the string it ends. */
  lemma SuffixMembers(s: string, suffix: string, c: char)
    ensures EndsWith(s, suffix) && c in suffix ==> c in s
  {
    if EndsWith(s, suffix) && c in suffix {
      var j :| 0 <= j < |suffix| && suffix[j] == c;
      assert s[|s| - |suffix| + j] == c;
    }
  }

  /** `s.split(sep)` with an explicit one-character separator. */
  function Split(s: string, sep: char): (parts: seq<string>)
    ensures |parts| >= 1
  {
    if s == [] then [[]]
    else
      var rest := Split(s[1..], sep);
      if s[0] == sep then [[]] + rest
      else [[s[0]] + rest[0]] + rest[1..]
  }

  /**
   The pieces are the runs between successive separators, empty ones
   included: none holds the separator, and there is one more piece than
   there are separators.
   */
  lemma {:induction false} SplitSpec(s: string, sep: char)
    ensures |Split(s, sep)| == multiset(s)[sep] + 1
    ensures forall p :: p in Split(s, sep) ==> sep !in p
  {
    if s != [] {
      SplitSpec(s[1..], sep);
      assert s == [s[0]] + s[1..];
      var rest := Split(s[1..], sep);
      if s[0] != sep {
        assert rest[0] in rest;
        forall p | p in rest[1..] ensures p in rest {
        }
      }
    }
  }

  /** `sep.join(parts)`. */
  function Join(sep: string, parts: seq<string>): string {
    if parts == [] then []
    else if |parts| == 1 then parts[0]
    else parts[0] + sep + Join(sep, parts[1..])
  }

  /** Joining the pieces of a split with the same separator gives back the original string. */
  lemma {:induction false} JoinSplit(s: string, sep: char)
    ensures Join([sep], Split(s, sep)) == s
  {
    if s != [] {
      var rest := Split(s[1..], sep);
      JoinSplit(s[1..], sep);
      if s[0] == sep {
        JoinEmptyHead([sep], rest);
      } else {
        JoinConsHead(s[0], [sep], rest);
      }
      assert [s[0]] + s[1..] == s;
    }
  }

  lemma JoinEmptyHead(sep: string, parts: seq<string>)
    requires parts != []
    ensures Join(sep, [[]] + parts) == sep + Join(sep, parts)
  {
    assert ([[]] + parts)[1..] == parts;
  }

  lemma JoinConsHead(c: char, sep: string, parts: seq<string>)
    requires parts != []
    ensures Join(sep, [[c] + parts[0]] + parts[1..]) == [c] + Join(sep, parts)
  {
    var q := [[c] + parts[0]] + parts[1..];
    assert q[1..] == parts[1..];
    if |parts| > 1 {
      calc {
        Join(sep, q);
        ([c] + parts[0]) + sep + Join(sep, parts[1..]);
        [c] + (parts[0] + sep + Join(sep, parts[1..]));
      }
    }
  }

  /** A string without the separator splits into the one-element list holding itself. */
  lemma {:induction false} SplitWithoutSeparator(s: string, sep: char)
    requires sep !in s
    ensures Split(s, sep) == [s]
  {
    if s != [] {
      SplitWithoutSeparator(s[1..], sep);
      assert [s[0]] + s[1..] == s;
    }
  }
}
