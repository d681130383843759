/**
 * The string primitives the pages rely on: `toLowerCase` and `includes`
 * (route search), `trim` and `split(",")` (the add-route form).
 */
module Text {

  /** ECMAScript's WhiteSpace and LineTerminator code points: exactly what `String.prototype.trim` strips. */
  predicate IsSpace(c: char) {
    || c == '\t' || c == '\n' || c == '\U{0B}' || c == '\U{0C}' || c == '\r' || c == ' '
    || c == '\U{A0}' || c == '\U{1680}' || ('\U{2000}' <= c <= '\U{200A}')
    || c == '\U{2028}' || c == '\U{2029}' || c == '\U{202F}' || c == '\U{205F}'
    || c == '\U{3000}' || c == '\U{FEFF}'
  }

  /** Lower-case form of one character (ASCII letters only). */
  function LowerChar(c: char): char {
    if 'A' <= c <= 'Z' then (c as int + 32) as char else c
  }

  /** `s.toLowerCase()`, character by character. */
  function Lower(s: string): (r: string)
    ensures |r| == |s|
    ensures forall i :: 0 <= i < |s| ==> r[i] == LowerChar(s[i])
  {
    seq(|s|, i requires 0 <= i < |s| => LowerChar(s[i]))
  }

  /** `s.includes(sub)`: `sub` occurs in `s` starting at some position. */
  predicate Contains(s: string, sub: string) {
    sub <= s || (s != [] && Contains(s[1..], sub))
  }

  /** `sub` occurs in `s` starting at position `i`. */
  predicate OccursAt(s: string, sub: string, i: int) {
    0 <= i <= |s| - |sub| && s[i..i + |sub|] == sub
  }

  /** The positional reading of `includes`: `Contains` holds exactly when there is an occurrence. */
  lemma {:induction false} ContainsAt(s: string, sub: string)
    ensures Contains(s, sub) <==> exists i :: OccursAt(s, sub, i)
  {
    if sub <= s {
      assert OccursAt(s, sub, 0);
    } else if s == [] {
    } else {
      ContainsAt(s[1..], sub);
      if exists i :: OccursAt(s, sub, i) {
        var i :| OccursAt(s, sub, i);
        assert i != 0;
        assert OccursAt(s[1..], sub, i - 1);
      }
      if exists i :: OccursAt(s[1..], sub, i) {
        var i :| OccursAt(s[1..], sub, i);
        assert s[i + 1..i + 1 + |sub|] == s[1..][i..i + |sub|];
        assert OccursAt(s, sub, i + 1);
      }
    }
  }

  // ---------------------------------------------------------------- trim

  /** Number of whitespace characters at the front of `s`. */
  function LeadingSpaces(s: string): (n: nat)
    ensures n <= |s|
    ensures forall k :: 0 <= k < n ==> IsSpace(s[k])
    ensures n < |s| ==> !IsSpace(s[n])
  {
    if s != [] && IsSpace(s[0]) then 1 + LeadingSpaces(s[1..]) else 0
  }

  /** Number of whitespace characters at the back of `s`. */
  function TrailingSpaces(s: string): (n: nat)
    ensures n <= |s|
    ensures forall k :: |s| - n <= k < |s| ==> IsSpace(s[k])
    ensures n < |s| ==> !IsSpace(s[|s| - 1 - n])
  {
    if s != [] && IsSpace(s[|s| - 1]) then 1 + TrailingSpaces(s[..|s| - 1]) else 0
  }

  /**
   * `s.trim()`: the longest slice of `s` that neither starts nor ends with
   * whitespace, everything cut away on either side being whitespace.
   */
  function Trim(s: string): (r: string)
    ensures LeadingSpaces(s) + |r| <= |s|
    ensures r == s[LeadingSpaces(s)..LeadingSpaces(s) + |r|]
    ensures forall k :: 0 <= k < LeadingSpaces(s) ==> IsSpace(s[k])
    ensures forall k :: LeadingSpaces(s) + |r| <= k < |s| ==> IsSpace(s[k])
    ensures r != [] ==> !IsSpace(r[0]) && !IsSpace(r[|r| - 1])
  {
    var t := s[LeadingSpaces(s)..];
    t[..|t| - TrailingSpaces(t)]
  }

  /** Trimming is idempotent: a trimmed string has nothing left to strip. */
  lemma TrimIdempotent(s: string)
    ensures Trim(Trim(s)) == Trim(s)
  {
    var r := Trim(s);
    if r != [] {
      assert LeadingSpaces(r) == 0;
      assert TrailingSpaces(r) == 0;
    }
  }

  /** Trimming only removes characters: a character that is not in `s` is not in `Trim(s)`. */
  lemma TrimKeepsOnly(s: string, c: char)
    requires c !in s
    ensures c !in Trim(s)
  {
    var r := Trim(s);
    var i := LeadingSpaces(s);
    forall k | 0 <= k < |r| ensures r[k] != c {
      assert r[k] == s[i + k];
    }
  }

  // ---------------------------------------------------------------- split / join on ","

  /** Number of commas in `s`. */
  function CommaCount(s: string): nat {
    if s == [] then 0 else (if s[0] == ',' then 1 else 0) + CommaCount(s[1..])
  }

  /**
   * `s.split(",")`: the pieces between commas, in order; there is always one
   * more piece than there are commas, so `""` gives `[""]`.
   */
  function SplitOnComma(s: string): (parts: seq<string>)
    ensures |parts| == CommaCount(s) + 1
    ensures forall i :: 0 <= i < |parts| ==> ',' !in parts[i]
  {
    if s == [] then [[]]
    else
      var rest := SplitOnComma(s[1..]);
      if s[0] == ',' then [[]] + rest
      else [[s[0]] + rest[0]] + rest[1..]
  }

  /** `parts.join(",")`, the inverse of `SplitOnComma`. */
  function JoinWithComma(parts: seq<string>): string
    requires parts != []
  {
    if |parts| == 1 then parts[0] else parts[0] + "," + JoinWithComma(parts[1..])
  }

  /** Splitting loses nothing: joining the pieces back with commas restores the input. */
  lemma {:induction false} JoinSplit(s: string)
    ensures JoinWithComma(SplitOnComma(s)) == s
  {
    if s != [] {
      var rest := SplitOnComma(s[1..]);
      JoinSplit(s[1..]);
      if s[0] == ',' {
        assert SplitOnComma(s) == [[]] + rest;
        assert [[]] + rest != [] && ([[]] + rest)[1..] == rest;
      } else {
        var parts := SplitOnComma(s);
        assert parts == [[s[0]] + rest[0]] + rest[1..];
        if |rest| == 1 {
          assert JoinWithComma(parts) == [s[0]] + rest[0];
        } else {
          assert parts[1..] == rest[1..];
          assert JoinWithComma(rest) == rest[0] + "," + JoinWithComma(rest[1..]);
        }
      }
    }
  }

  /** The other direction: comma-free pieces joined with commas split back into the same pieces. */
  lemma {:induction false} SplitJoin(parts: seq<string>)
    requires parts != []
    requires forall i :: 0 <= i < |parts| ==> ',' !in parts[i]
    ensures SplitOnComma(JoinWithComma(parts)) == parts
  {
    if |parts| == 1 {
      SplitPiece(parts[0], []);
      assert parts[0] + [] == parts[0];
    } else {
      var tail := JoinWithComma(parts[1..]);
      SplitJoin(parts[1..]);
      SplitPiece(parts[0], "," + tail);
      assert parts[0] + "," + tail == parts[0] + ("," + tail);
      var s := "," + tail;
      assert s[0] == ',' && s[1..] == tail;
      assert SplitOnComma(s) == [[]] + parts[1..];
      assert SplitOnComma(s)[0] == [] && SplitOnComma(s)[1..] == parts[1..];
      assert parts[0] + [] == parts[0];
      assert [parts[0]] + parts[1..] == parts;
    }
  }

  /** A comma-free prefix glues onto the first piece of whatever follows it. */
  lemma {:induction false} SplitPiece(w: string, s: string)
    requires ',' !in w
    ensures SplitOnComma(w + s) == [w + SplitOnComma(s)[0]] + SplitOnComma(s)[1..]
  {
    if w != [] {
      SplitPiece(w[1..], s);
      assert (w + s)[0] == w[0] && (w + s)[1..] == w[1..] + s;
      assert [w[0]] + (w[1..] + SplitOnComma(s)[0]) == w + SplitOnComma(s)[0];
    } else {
      var x := SplitOnComma(s);
      assert w + s == s && w + x[0] == x[0];
      assert [x[0]] + x[1..] == x;
    }
  }
}
