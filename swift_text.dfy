/**
  The few string operations of Swift and Foundation that the game relies on,
  modelled on `seq<char>`: `lowercased()` (ASCII letters only),
  `trimmingCharacters(in: .whitespacesAndNewlines)`,
  `components(separatedBy: "\n")`, `firstIndex(of:)` and `remove(at:)`.
  A `char` stands for one Swift `Character`.
 */
module SwiftText {

  datatype Option<T> = None | Some(value: T)

  /** The characters of Foundation's `.whitespacesAndNewlines` set
      (the Unicode White_Space property). */
  predicate IsWhitespace(c: char) {
    ('\t' <= c <= '\r') || c == ' ' || c == '\U{85}' || c == '\U{A0}' || c == '\U{1680}'
    || ('\U{2000}' <= c <= '\U{200A}') || c == '\U{2028}' || c == '\U{2029}'
    || c == '\U{202F}' || c == '\U{205F}' || c == '\U{3000}'
  }

  predicate IsUpper(c: char) {
    'A' <= c <= 'Z'
  }

  /** No ASCII capital letter occurs in `s`. */
  predicate IsLowercase(s: string) {
    forall i | 0 <= i < |s| :: !IsUpper(s[i])
  }

  function LowerChar(c: char): char {
    if IsUpper(c) then (c as int + 32) as char else c
  }

  /** `s.lowercased()`, restricted to the ASCII letters. */
  function Lowercased(s: string): string
    decreases |s|
  {
    if s == [] then [] else [LowerChar(s[0])] + Lowercased(s[1..])
  }

  /** Lower-casing keeps the length, leaves no capital letter, changes only
      capital letters (each into the letter 32 code points on) and so keeps
      every whitespace character where it was. */
  lemma {:induction false} LowercasedSpec(s: string)
    ensures var r := Lowercased(s);
      && |r| == |s| && IsLowercase(r)
      && (forall i | 0 <= i < |s| :: r[i] == s[i] || (IsUpper(s[i]) && r[i] as int == s[i] as int + 32))
      && (forall i | 0 <= i < |s| :: IsWhitespace(r[i]) <==> IsWhitespace(s[i]))
    decreases |s|
  {
    if s != [] {
      LowercasedSpec(s[1..]);
      var r := Lowercased(s);
      assert forall i | 1 <= i < |s| :: r[i] == Lowercased(s[1..])[i - 1] && s[i] == s[1..][i - 1];
    }
  }

  /** Lower-casing a string that has no capital letter changes nothing. */
  lemma {:induction false} LowercasedFixesLowercase(s: string)
    requires IsLowercase(s)
    ensures Lowercased(s) == s
    decreases |s|
  {
    if s != [] {
      LowercasedFixesLowercase(s[1..]);
      assert [s[0]] + s[1..] == s;
    }
  }

  /** Removes the whitespace at the front of `s`. */
  function TrimLeading(s: string): string
    decreases |s|
  {
    if s != [] && IsWhitespace(s[0]) then TrimLeading(s[1..]) else s
  }

  /** `TrimLeading` cuts off a run of whitespace and stops at the first
      character that is not whitespace. */
  lemma {:induction false} TrimLeadingSpec(s: string)
    ensures var r := TrimLeading(s);
      && |r| <= |s| && r == s[|s| - |r|..]
      && (forall i | 0 <= i < |s| - |r| :: IsWhitespace(s[i]))
      && (r != [] ==> !IsWhitespace(r[0]))
    decreases |s|
  {
    if s != [] && IsWhitespace(s[0]) {
      TrimLeadingSpec(s[1..]);
    }
  }

  /** Removes the whitespace at the back of `s`. */
  function TrimTrailing(s: string): string
    decreases |s|
  {
    if s != [] && IsWhitespace(s[|s| - 1]) then TrimTrailing(s[..|s| - 1]) else s
  }

  /** `TrimTrailing` cuts off a run of whitespace at the back and stops at
      the last character that is not whitespace. */
  lemma {:induction false} TrimTrailingSpec(s: string)
    ensures var r := TrimTrailing(s);
      && |r| <= |s| && r == s[..|r|]
      && (forall i | |r| <= i < |s| :: IsWhitespace(s[i]))
      && (r != [] ==> !IsWhitespace(r[|r| - 1]))
    decreases |s|
  {
    if s != [] && IsWhitespace(s[|s| - 1]) {
      TrimTrailingSpec(s[..|s| - 1]);
    }
  }

  /** `s.trimmingCharacters(in: .whitespacesAndNewlines)`: the piece of `s`
      left after cutting the whitespace off both ends. */
  function Trimmed(s: string): string {
    TrimTrailing(TrimLeading(s))
  }

  /** The trimming of `s` is the piece `s[a..b]` left after cutting off
      whitespace only, before `a` and from `b` on; it has no whitespace at
      either end, and it is empty exactly when `s` is all whitespace. */
  lemma TrimmedSpec(s: string)
    ensures var r := Trimmed(s);
      && (exists a, b :: 0 <= a <= b <= |s| && r == s[a..b]
            && (forall i | 0 <= i < a :: IsWhitespace(s[i]))
            && (forall i | b <= i < |s| :: IsWhitespace(s[i])))
      && (exists k :: 0 <= k <= |s| && r <= s[k..])
      && (r != [] ==> !IsWhitespace(r[0]) && !IsWhitespace(r[|r| - 1]))
      && (r == [] <==> forall i | 0 <= i < |s| :: IsWhitespace(s[i]))
  {
    var front := TrimLeading(s);
    TrimLeadingSpec(s);
    TrimTrailingSpec(front);
    var r := TrimTrailing(front);
    var a := |s| - |front|;
    var b := a + |r|;
    assert front == s[a..];
    assert r == s[a..b];
    forall i | b <= i < |s| ensures IsWhitespace(s[i]) {
      assert s[i] == front[i - a];
    }
    assert r <= s[a..];
    if r == [] {
      assert |front| == 0;
    }
  }

  /** A string without whitespace at either end is its own trimming. */
  lemma TrimmedFixesTrimmed(s: string)
    requires s != [] ==> !IsWhitespace(s[0]) && !IsWhitespace(s[|s| - 1])
    ensures Trimmed(s) == s
  {
    assert TrimLeading(s) == s;
    assert TrimTrailing(s) == s;
  }

  /** Trimming keeps a string free of capital letters. */
  lemma TrimmedKeepsLowercase(s: string)
    requires IsLowercase(s)
    ensures IsLowercase(Trimmed(s))
  {
    TrimmedSpec(s);
    var r := Trimmed(s);
    var k :| 0 <= k <= |s| && r <= s[k..];
    forall i | 0 <= i < |r| ensures !IsUpper(r[i]) {
      assert r[i] == s[k..][i] == s[k + i];
    }
  }

  /** The form `Normalize` leaves a string in: no capital letter and no
      whitespace at either end. */
  predicate IsNormalized(s: string) {
    IsLowercase(s) && (s != [] ==> !IsWhitespace(s[0]) && !IsWhitespace(s[|s| - 1]))
  }

  /** What the game does to the text field before checking it:
      `newWord.lowercased().trimmingCharacters(in: .whitespacesAndNewlines)`. */
  function Normalize(raw: string): string {
    Trimmed(Lowercased(raw))
  }

  /** The normalised answer is in normal form, and it is empty exactly when
      the raw text is all whitespace. */
  lemma NormalizeSpec(raw: string)
    ensures IsNormalized(Normalize(raw))
    ensures Normalize(raw) == [] <==> forall i | 0 <= i < |raw| :: IsWhitespace(raw[i])
  {
    var lower := Lowercased(raw);
    LowercasedSpec(raw);
    TrimmedSpec(lower);
    TrimmedKeepsLowercase(lower);
  }

  /** A normalised string is left as it is by `Normalize`. */
  lemma NormalizeFixesNormalized(s: string)
    requires IsNormalized(s)
    ensures Normalize(s) == s
  {
    LowercasedFixesLowercase(s);
    TrimmedFixesTrimmed(s);
  }

  /** Normalising twice is normalising once, so an accepted answer is stored
      in the same form that later answers are compared in. */
  lemma NormalizeIdempotent(raw: string)
    ensures Normalize(Normalize(raw)) == Normalize(raw)
  {
    NormalizeSpec(raw);
    NormalizeFixesNormalized(Normalize(raw));
  }

  /** `s.components(separatedBy: "\n")`: the pieces of `s` between its line
      feeds, empty pieces included. */
  function Lines(s: string): (r: seq<string>)
    ensures |r| >= 1
    ensures forall i | 0 <= i < |r| :: '\n' !in r[i]
    decreases |s|
  {
    if s == [] then [""]
    else
      var rest := Lines(s[1..]);
      if s[0] == '\n' then [""] + rest
      else [[s[0]] + rest[0]] + rest[1..]
  }

  /** The inverse of `Lines`: the pieces glued back with line feeds. */
  function Join(lines: seq<string>): string
    decreases |lines|
  {
    if |lines| == 0 then ""
    else if |lines| == 1 then lines[0]
    else lines[0] + "\n" + Join(lines[1..])
  }

  lemma {:induction false} JoinConsFirst(c: char, lines: seq<string>)
    requires |lines| >= 1
    ensures Join([[c] + lines[0]] + lines[1..]) == [c] + Join(lines)
  {
    var ls := [[c] + lines[0]] + lines[1..];
    if |lines| > 1 {
      assert ls[1..] == lines[1..];
    }
  }

  /** Splitting into lines and joining them again gives back the text. */
  lemma {:induction false} JoinLines(s: string)
    ensures Join(Lines(s)) == s
    decreases |s|
  {
    if s != [] {
      var rest := Lines(s[1..]);
      JoinLines(s[1..]);
      if s[0] == '\n' {
        assert ([""] + rest)[1..] == rest;
      } else {
        JoinConsFirst(s[0], rest);
      }
    }
  }

  lemma {:induction false} LinesOfLine(a: string)
    requires '\n' !in a
    ensures Lines(a) == [a]
    decreases |a|
  {
    if a != [] {
      LinesOfLine(a[1..]);
      assert [a[0]] + a[1..] == a;
    }
  }

  lemma {:induction false} LinesOfLineFeed(a: string, b: string)
    requires '\n' !in a
    ensures Lines(a + "\n" + b) == [a] + Lines(b)
    decreases |a|
  {
    var s := a + "\n" + b;
    if a == [] {
      assert s[1..] == b;
    } else {
      assert s[1..] == a[1..] + "\n" + b;
      LinesOfLineFeed(a[1..], b);
      assert [a[0]] + a[1..] == a;
    }
  }

  /** Joining pieces that hold no line feed and splitting the result gives
      back the pieces. */
  lemma {:induction false} LinesJoin(lines: seq<string>)
    requires |lines| >= 1
    requires forall i | 0 <= i < |lines| :: '\n' !in lines[i]
    ensures Lines(Join(lines)) == lines
    decreases |lines|
  {
    if |lines| == 1 {
      LinesOfLine(lines[0]);
    } else {
      LinesJoin(lines[1..]);
      LinesOfLineFeed(lines[0], Join(lines[1..]));
    }
  }

  /** `s.firstIndex(of: c)`: the position of the first `c` in `s`, if any. */
  function FirstIndex(s: string, c: char): (r: Option<nat>)
    ensures r.None? <==> c !in s
    ensures r.Some? ==> r.value < |s| && s[r.value] == c && c !in s[..r.value]
    decreases |s|
  {
    if s == [] then None
    else if s[0] == c then Some(0)
    else match FirstIndex(s[1..], c)
      case None => None
      case Some(k) =>
        assert s[..k + 1] == [s[0]] + s[1..][..k];
        Some(k + 1)
  }

  /** `s.remove(at: pos)`: `s` less the one character at `pos`. */
  function RemoveAt(s: string, pos: nat): (r: string)
    requires pos < |s|
    ensures |r| == |s| - 1
    ensures multiset(r) == multiset(s) - multiset{s[pos]}
    ensures multiset(r) + multiset{s[pos]} == multiset(s)
  {
    assert s == s[..pos] + [s[pos]] + s[pos + 1..];
    s[..pos] + s[pos + 1..]
  }
}
