/**
 * Character classes and string splitting shared by the post-processor and the
 * simplified-output builder. JavaScript's `\s` class is modelled exactly; the
 * Unicode letter/number classes and the case mappings are approximations that
 * cover ASCII, Latin-1 and the Latin/IPA letters the app deals with.
 */
module Text {

  datatype Option<T> = None | Some(value: T)

  /** The characters matched by JavaScript's `\s`. */
  predicate IsSpace(c: char) {
    c == ' ' || c == '\t' || c == '\n' || c == '\U{000B}' || c == '\U{000C}' || c == '\r'
    || c == '\U{00A0}' || c == '\U{1680}' || ('\U{2000}' <= c <= '\U{200A}')
    || c == '\U{2028}' || c == '\U{2029}' || c == '\U{202F}' || c == '\U{205F}'
    || c == '\U{3000}' || c == '\U{FEFF}'
  }

  predicate NoSpace(s: string) {
    forall i :: 0 <= i < |s| ==> !IsSpace(s[i])
  }

  /** Letters (`\p{L}`): ASCII, Latin-1, Latin Extended-A/B, IPA Extensions and the modifier letters. */
  predicate IsLetter(c: char) {
    ('A' <= c <= 'Z') || ('a' <= c <= 'z')
    || c == '\U{00AA}' || c == '\U{00B5}' || c == '\U{00BA}'
    || ('\U{00C0}' <= c <= '\U{00D6}') || ('\U{00D8}' <= c <= '\U{00F6}')
    || ('\U{00F8}' <= c <= '\U{02C1}') || ('\U{02C6}' <= c <= '\U{02D1}')
  }

  /** Numbers (`\p{N}`): ASCII digits and the Latin-1 superscripts and fractions. */
  predicate IsNumber(c: char) {
    ('0' <= c <= '9') || c == '\U{00B2}' || c == '\U{00B3}' || c == '\U{00B9}'
    || ('\U{00BC}' <= c <= '\U{00BE}')
  }

  /** Lower-case mapping of one character (ASCII and Latin-1 capitals). */
  function Lower(c: char): (r: char)
    ensures 'a' <= r <= 'z' ==> (c == r || c == (r as int - 32) as char)
    ensures !(('A' <= c <= 'Z') || ('\U{00C0}' <= c <= '\U{00DE}' && c != '\U{00D7}')) ==> r == c
  {
    if ('A' <= c <= 'Z') || ('\U{00C0}' <= c <= '\U{00DE}' && c != '\U{00D7}')
    then (c as int + 32) as char
    else c
  }

  /** Upper-case mapping of one character (ASCII and Latin-1 small letters). */
  function Upper(c: char): (r: char)
    ensures 'a' <= c <= 'z' ==> 'A' <= r <= 'Z' && Lower(r) == c
  {
    if ('a' <= c <= 'z') || ('\U{00E0}' <= c <= '\U{00FE}' && c != '\U{00F7}')
    then (c as int - 32) as char
    else c
  }

  lemma LowerIdempotent(c: char)
    ensures Lower(Lower(c)) == Lower(c)
  {
  }

  /** `String.prototype.toLowerCase`, character by character. */
  function LowerStr(s: string): (r: string)
    ensures |r| == |s|
    ensures forall i :: 0 <= i < |s| ==> r[i] == Lower(s[i])
    ensures forall c :: c in r ==> Lower(c) == c
  {
    seq(|s|, i requires 0 <= i < |s| => Lower(s[i]))
  }

  /** `String.prototype.toUpperCase`, character by character. */
  function UpperStr(s: string): (r: string)
    ensures |r| == |s|
    ensures forall i :: 0 <= i < |s| ==> r[i] == Upper(s[i])
  {
    seq(|s|, i requires 0 <= i < |s| => Upper(s[i]))
  }

  /** Keeps the characters of `s` that are not in `drop` (a global `replace` with ''). */
  function Remove(s: string, drop: set<char>): (r: string)
    ensures |r| <= |s|
    ensures forall i :: 0 <= i < |r| ==> r[i] !in drop
    ensures forall c :: c in r ==> c in s
    ensures (forall i :: 0 <= i < |s| ==> s[i] !in drop) ==> r == s
  {
    if s == [] then []
    else if s[0] in drop then Remove(s[1..], drop)
    else [s[0]] + Remove(s[1..], drop)
  }

  /** Removal works piece by piece: the kept characters stay, in their order. */
  lemma {:induction false} RemoveAppend(a: string, b: string, drop: set<char>)
    ensures Remove(a + b, drop) == Remove(a, drop) + Remove(b, drop)
    decreases |a|
  {
    if a == [] {
      assert a + b == b;
    } else {
      assert (a + b)[0] == a[0] && (a + b)[1..] == a[1..] + b;
      RemoveAppend(a[1..], b, drop);
    }
  }

  /** One character is dropped when it is in the set and kept otherwise. */
  lemma RemoveChar(c: char, drop: set<char>)
    ensures Remove([c], drop) == if c in drop then [] else [c]
  {
    assert [c][1..] == [];
  }

  // ---------------------------------------------------------------------------
  // `text.split(/\s+/)`

  /** Index of the first whitespace character of `s`, or `|s|`. */
  function FirstSpace(s: string): (i: nat)
    ensures i <= |s|
    ensures forall j :: 0 <= j < i ==> !IsSpace(s[j])
    ensures i < |s| ==> IsSpace(s[i])
  {
    if s == [] || IsSpace(s[0]) then 0 else 1 + FirstSpace(s[1..])
  }

  /** Length of the whitespace run at the start of `s`. */
  function LeadingSpaces(s: string): (n: nat)
    ensures n <= |s|
    ensures forall j :: 0 <= j < n ==> IsSpace(s[j])
    ensures n < |s| ==> !IsSpace(s[n])
  {
    if s != [] && IsSpace(s[0]) then 1 + LeadingSpaces(s[1..]) else 0
  }

  /**
   * A result of splitting on whitespace runs: at least one piece, no piece holds
   * whitespace, and only the first and the last piece may be empty.
   */
  predicate WellSplit(ps: seq<string>) {
    && |ps| >= 1
    && (forall k :: 0 <= k < |ps| ==> NoSpace(ps[k]))
    && (forall k :: 0 < k < |ps| - 1 ==> ps[k] != "")
  }

  /** `s.split(/\s+/)`: the pieces between maximal whitespace runs. */
  function SplitWs(s: string): (ps: seq<string>)
    ensures WellSplit(ps)
    ensures s != "" && !IsSpace(s[0]) ==> ps[0] != ""
    decreases |s|
  {
    var i := FirstSpace(s);
    if i == |s| then [s]
    else
      var rest := s[i..];
      var n := LeadingSpaces(rest);
      var tail := SplitWs(rest[n..]);
      [s[..i]] + tail
  }

  /** `Array.prototype.join(sep)`. */
  function JoinWith(sep: string, ps: seq<string>): string {
    if |ps| == 0 then ""
    else if |ps| == 1 then ps[0]
    else ps[0] + sep + JoinWith(sep, ps[1..])
  }

  /** Keeps the non-empty strings (`.filter(word => word.length > 0)`). */
  function NonEmpty(ps: seq<string>): (r: seq<string>)
    ensures |r| <= |ps|
    ensures forall k :: 0 <= k < |r| ==> r[k] != "" && r[k] in ps
  {
    if ps == [] then []
    else if ps[0] == "" then NonEmpty(ps[1..])
    else [ps[0]] + NonEmpty(ps[1..])
  }

  /** The whitespace tokenizer: split on whitespace runs, drop empty pieces. */
  function Tokenize(s: string): (ws: seq<string>)
    ensures forall k :: 0 <= k < |ws| ==> ws[k] != "" && NoSpace(ws[k])
  {
    NonEmpty(SplitWs(s))
  }

  /** A string without whitespace splits into itself alone, and only such a string does. */
  lemma {:induction false} SplitWsSingle(s: string)
    ensures |SplitWs(s)| == 1 <==> NoSpace(s)
    ensures |SplitWs(s)| == 1 ==> SplitWs(s)[0] == s
  {
  }

  lemma {:induction false} FirstSpaceOfJoin(p: string, t: string)
    requires NoSpace(p)
    ensures FirstSpace(p + " " + t) == |p|
    decreases |p|
  {
    if p != [] {
      assert (p + " " + t)[1..] == p[1..] + " " + t;
      FirstSpaceOfJoin(p[1..], t);
    }
  }

  /** One single space after a space-free piece is one split point. */
  lemma {:induction false} SplitAfterSpace(p: string, t: string)
    requires NoSpace(p)
    requires t == "" || !IsSpace(t[0])
    ensures SplitWs(p + " " + t) == [p] + SplitWs(t)
  {
    var s := p + " " + t;
    FirstSpaceOfJoin(p, t);
    assert s[|p|..] == " " + t;
    assert (" " + t)[1..] == t;
    assert LeadingSpaces(" " + t) == 1;
    assert s[..|p|] == p;
  }

  /** Splitting on whitespace undoes joining with single spaces. */
  lemma {:induction false} SplitJoinRoundTrip(ps: seq<string>)
    requires WellSplit(ps)
    ensures SplitWs(JoinWith(" ", ps)) == ps
    decreases |ps|
  {
    if |ps| == 1 {
      SplitWsSingle(ps[0]);
    } else {
      var t := JoinWith(" ", ps[1..]);
      assert JoinWith(" ", ps) == ps[0] + " " + t;
      WellSplitTail(ps);
      JoinStart(ps[1..]);
      SplitAfterSpace(ps[0], t);
      SplitJoinRoundTrip(ps[1..]);
    }
  }

  lemma WellSplitTail(ps: seq<string>)
    requires WellSplit(ps) && |ps| >= 2
    ensures WellSplit(ps[1..])
  {
    forall k | 0 <= k < |ps[1..]| ensures NoSpace(ps[1..][k]) { assert ps[1..][k] == ps[k + 1]; }
    forall k | 0 < k < |ps[1..]| - 1 ensures ps[1..][k] != "" { assert ps[1..][k] == ps[k + 1]; }
  }

  /** A joined list whose inner pieces are non-empty does not start with whitespace. */
  lemma JoinStart(ps: seq<string>)
    requires |ps| >= 1 && (forall k :: 0 <= k < |ps| ==> NoSpace(ps[k]))
    requires |ps| >= 2 ==> ps[0] != ""
    ensures var t := JoinWith(" ", ps); t == "" || !IsSpace(t[0])
  {
    var t := JoinWith(" ", ps);
    if |ps| == 1 {
      assert t == ps[0];
    } else {
      assert t == ps[0] + " " + JoinWith(" ", ps[1..]);
      assert t[0] == ps[0][0];
    }
  }

  /** The text with each maximal whitespace run replaced by one space. */
  function CollapseWs(s: string): (r: string)
    decreases |s|
  {
    if s == [] then []
    else if IsSpace(s[0]) then " " + CollapseWs(s[LeadingSpaces(s)..])
    else [s[0]] + CollapseWs(s[1..])
  }

  /** A whitespace-free start is kept as it is. */
  lemma {:induction false} CollapsePrefix(p: string, t: string)
    requires NoSpace(p)
    ensures CollapseWs(p + t) == p + CollapseWs(t)
    decreases |p|
  {
    if p == [] {
      assert p + t == t;
    } else {
      assert (p + t)[0] == p[0] && (p + t)[1..] == p[1..] + t;
      assert !IsSpace(p[0]);
      assert NoSpace(p[1..]) by {
        forall k | 0 <= k < |p[1..]| ensures !IsSpace(p[1..][k]) { assert p[1..][k] == p[k + 1]; }
      }
      CollapsePrefix(p[1..], t);
      assert p == [p[0]] + p[1..];
    }
  }

  /** The pieces joined by single spaces are the text with each whitespace run collapsed to one space. */
  lemma {:induction false} JoinSplitWs(s: string)
    ensures JoinWith(" ", SplitWs(s)) == CollapseWs(s)
    decreases |s|
  {
    var i := FirstSpace(s);
    if i == |s| {
      CollapsePrefix(s, "");
      assert s + "" == s;
    } else {
      var rest := s[i..];
      var n := LeadingSpaces(rest);
      var tail := SplitWs(rest[n..]);
      JoinSplitWs(rest[n..]);
      JoinCons(" ", s[..i], tail);
      assert s == s[..i] + rest;
      CollapseAtSpace(s[..i], rest);
    }
  }

  /** A word followed by whitespace collapses to the word, one space and what follows the run. */
  lemma {:induction false} CollapseAtSpace(p: string, rest: string)
    requires NoSpace(p) && rest != [] && IsSpace(rest[0])
    ensures CollapseWs(p + rest) == p + " " + CollapseWs(rest[LeadingSpaces(rest)..])
  {
    CollapsePrefix(p, rest);
    CollapseSpaceRun(rest);
  }

  /** A text that starts with whitespace collapses to one space and the rest after the run. */
  lemma CollapseSpaceRun(rest: string)
    requires rest != [] && IsSpace(rest[0])
    ensures CollapseWs(rest) == " " + CollapseWs(rest[LeadingSpaces(rest)..])
  {
  }

  /** Drops one space at the start. */
  function StripLeading(t: string): (r: string)
    ensures r == t || t == " " + r
  {
    if t != [] && t[0] == ' ' then t[1..] else t
  }

  /** Drops one space at the end. */
  function StripTrailing(t: string): (r: string)
    ensures r == t || t == r + " "
  {
    if t != [] && t[|t| - 1] == ' ' then t[..|t| - 1] else t
  }

  /**
   * The tokens joined by single spaces are the text with each whitespace run collapsed
   * to one space, without the space a run at either end leaves.
   */
  lemma {:induction false} TokenizeRuns(s: string)
    ensures JoinWith(" ", Tokenize(s)) == StripTrailing(StripLeading(CollapseWs(s)))
  {
    JoinSplitWs(s);
    NonEmptyJoin(SplitWs(s));
  }

  /** Dropping the empty pieces of a split drops the spaces that leading and trailing whitespace leave. */
  lemma {:induction false} NonEmptyJoin(ps: seq<string>)
    requires WellSplit(ps)
    ensures JoinWith(" ", NonEmpty(ps)) == StripTrailing(StripLeading(JoinWith(" ", ps)))
  {
    if ps[0] == "" && |ps| >= 2 {
      WellSplitTail(ps);
      JoinCons(" ", ps[0], ps[1..]);
      assert JoinWith(" ", ps) == " " + JoinWith(" ", ps[1..]);
      NonEmptyJoinFromWord(ps[1..]);
    } else {
      JoinStart(ps);
      NonEmptyJoinFromWord(ps);
    }
  }

  /** The same for a split that does not start with an empty piece. */
  lemma {:induction false} NonEmptyJoinFromWord(ps: seq<string>)
    requires WellSplit(ps) && (|ps| == 1 || ps[0] != "")
    ensures JoinWith(" ", NonEmpty(ps)) == StripTrailing(JoinWith(" ", ps))
    decreases |ps|
  {
    var x := ps[0];
    if |ps| == 1 {
      assert ps == [x] && NonEmpty(ps) == (if x == "" then [] else [x]);
      assert NoSpace(x);
    } else {
      var tail := ps[1..];
      WellSplitTail(ps);
      assert |tail| == 1 || tail[0] != "" by {
        if |ps| >= 3 { assert tail[0] == ps[1]; }
      }
      NonEmptyJoinFromWord(tail);
      assert ps == [x] + tail;
      assert NonEmpty(ps) == [x] + NonEmpty(tail);
      JoinCons(" ", x, tail);
      var jt := JoinWith(" ", tail);
      if NonEmpty(tail) == [] {
        NoWordsJoin(tail);
        assert JoinWith(" ", NonEmpty(ps)) == x;
      } else {
        JoinCons(" ", x, NonEmpty(tail));
        JoinNotEmpty(NonEmpty(tail));
        assert jt != "";
        StripTrailingAfter(x + " ", jt);
      }
    }
  }

  /** A well-split list without a non-empty piece is one or two empty pieces. */
  lemma NoWordsJoin(ps: seq<string>)
    requires WellSplit(ps) && NonEmpty(ps) == [] && (|ps| == 1 || ps[0] != "")
    ensures JoinWith(" ", ps) == ""
  {
    NonEmptyFirst(ps);
  }

  /** A non-empty first piece is kept. */
  lemma NonEmptyFirst(ps: seq<string>)
    ensures ps != [] && ps[0] != "" ==> NonEmpty(ps) != []
  {
  }

  /** Joining a list whose first piece is non-empty gives a non-empty text. */
  lemma JoinNotEmpty(ps: seq<string>)
    requires ps != [] && ps[0] != ""
    ensures JoinWith(" ", ps) != ""
  {
    if |ps| >= 2 {
      assert |JoinWith(" ", ps)| >= |ps[0]|;
    }
  }

  /** A trailing space of a non-empty end is removed after any start. */
  lemma StripTrailingAfter(p: string, t: string)
    requires t != ""
    ensures StripTrailing(p + t) == p + StripTrailing(t)
  {
    if t[|t| - 1] == ' ' {
      assert (p + t)[..|p + t| - 1] == p + t[..|t| - 1];
    }
  }

  // ---------------------------------------------------------------------------
  // `text.split(/\r?\n/)`

  /** Index of the first line feed of `s`, or `|s|`. */
  function FirstNewline(s: string): (i: nat)
    ensures i <= |s|
    ensures forall j :: 0 <= j < i ==> s[j] != '\n'
    ensures i < |s| ==> s[i] == '\n'
  {
    if s == [] || s[0] == '\n' then 0 else 1 + FirstNewline(s[1..])
  }

  /** `s.split(/\r?\n/)`: a carriage return right before a line feed belongs to the break. */
  function SplitLines(s: string): (ls: seq<string>)
    ensures |ls| >= 1
    ensures '\n' !in s ==> ls == [s]
    ensures '\n' in s ==> |ls| >= 2
    decreases |s|
  {
    var i := FirstNewline(s);
    if i == |s| then [s]
    else
      var line := if i > 0 && s[i - 1] == '\r' then s[..i - 1] else s[..i];
      [line] + SplitLines(s[i + 1..])
  }

  /** No line holds a line feed. */
  lemma {:induction false} SplitLinesNoNewline(s: string, k: nat)
    requires k < |SplitLines(s)|
    ensures '\n' !in SplitLines(s)[k]
    decreases |s|
  {
    var i := FirstNewline(s);
    if i < |s| {
      var line := if i > 0 && s[i - 1] == '\r' then s[..i - 1] else s[..i];
      assert SplitLines(s) == [line] + SplitLines(s[i + 1..]);
      if k == 0 {
        NoNewlineBefore(s, |line|);
      } else {
        SplitLinesNoNewline(s[i + 1..], k - 1);
      }
    }
  }

  lemma NoNewlineBefore(s: string, n: nat)
    requires n <= FirstNewline(s)
    ensures '\n' !in s[..n]
  {
    forall j | 0 <= j < n ensures s[..n][j] != '\n' {
      assert s[..n][j] == s[j];
    }
  }

  /** Every character of a line is a character of the text. */
  lemma {:induction false} SplitLinesChars(s: string, k: nat, c: char)
    requires k < |SplitLines(s)| && c in SplitLines(s)[k]
    ensures c in s
    decreases |s|
  {
    var i := FirstNewline(s);
    if i < |s| {
      var line := if i > 0 && s[i - 1] == '\r' then s[..i - 1] else s[..i];
      assert SplitLines(s) == [line] + SplitLines(s[i + 1..]);
      if k == 0 {
        CharOfPrefix(s, |line|, c);
      } else {
        SplitLinesChars(s[i + 1..], k - 1, c);
        CharOfSuffix(s, i + 1, c);
      }
    }
  }

  lemma CharOfPrefix(s: string, n: nat, c: char)
    requires n <= |s| && c in s[..n]
    ensures c in s
  {
    var j :| 0 <= j < n && s[..n][j] == c;
    assert s[j] == c;
  }

  lemma CharOfSuffix(s: string, n: nat, c: char)
    requires n <= |s| && c in s[n..]
    ensures c in s
  {
    var j :| 0 <= j < |s| - n && s[n..][j] == c;
    assert s[n + j] == c;
  }

  /** Without carriage returns, joining the lines with line feeds gives back the text. */
  lemma {:induction false} SplitLinesRoundTrip(s: string)
    requires '\r' !in s
    ensures JoinWith("\n", SplitLines(s)) == s
    decreases |s|
  {
    var i := FirstNewline(s);
    if i < |s| {
      var rest := s[i + 1..];
      SplitLinesStep(s);
      SplitLinesRoundTrip(rest);
      JoinCons("\n", s[..i], SplitLines(rest));
    }
  }

  /** Without carriage returns, the first line is everything before the first line feed. */
  lemma SplitLinesStep(s: string)
    requires '\r' !in s && FirstNewline(s) < |s|
    ensures '\r' !in s[FirstNewline(s) + 1..]
    ensures SplitLines(s) == [s[..FirstNewline(s)]] + SplitLines(s[FirstNewline(s) + 1..])
    ensures s == s[..FirstNewline(s)] + "\n" + s[FirstNewline(s) + 1..]
  {
    var i := FirstNewline(s);
    NoneAfter(s, i + 1, '\r');
    if i > 0 { NoneAt(s, i - 1, '\r'); }
    CutAt(s, i);
  }

  lemma NoneAfter(s: string, i: nat, c: char)
    requires i <= |s| && c !in s
    ensures c !in s[i..]
  {
    forall j | 0 <= j < |s| - i ensures s[i..][j] != c { assert s[i..][j] == s[i + j]; }
  }

  lemma NoneAt(s: string, i: nat, c: char)
    requires i < |s| && c !in s
    ensures s[i] != c
  {
    assert s[i] in s;
  }

  lemma CutAt<T>(s: seq<T>, i: nat)
    requires i < |s|
    ensures s == s[..i] + [s[i]] + s[i + 1..]
  {
  }

  lemma TakeOneMore<T>(s: seq<T>, i: nat)
    requires i < |s|
    ensures s[..i + 1] == s[..i] + [s[i]]
  {
  }

  lemma JoinCons(sep: string, x: string, tail: seq<string>)
    requires |tail| >= 1
    ensures JoinWith(sep, [x] + tail) == x + sep + JoinWith(sep, tail)
  {
    assert ([x] + tail)[1..] == tail;
  }
}
