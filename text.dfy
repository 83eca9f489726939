/** The pieces of Go's `strings` package and of `bufio.Reader.ReadString`
    that the interception logic relies on, over strings of Unicode scalars. */
module Text {

  /** strings.HasPrefix */
  predicate HasPrefix(s: string, prefix: string) {
    |prefix| <= |s| && s[..|prefix|] == prefix
  }

  /** strings.HasSuffix */
  predicate HasSuffix(s: string, suffix: string) {
    |suffix| <= |s| && s[|s| - |suffix|..] == suffix
  }

  /** unicode.ToLower restricted to ASCII letters. */
  function LowerChar(c: char): (d: char)
    ensures 'A' <= c <= 'Z' ==> d as int == c as int + 32
    ensures !('A' <= c <= 'Z') ==> d == c
    ensures !('A' <= d <= 'Z')
  {
    if 'A' <= c <= 'Z' then (c as int + 32) as char else c
  }

  /** strings.ToLower, character by character. */
  function Lower(s: string): (t: string)
    ensures |t| == |s|
    ensures forall i | 0 <= i < |s| :: t[i] == LowerChar(s[i])
  {
    seq(|s|, i requires 0 <= i < |s| => LowerChar(s[i]))
  }

  /** Lowering twice is lowering once, so a lowercased name is its own key. */
  lemma LowerIdempotent(s: string)
    ensures Lower(Lower(s)) == Lower(s)
  {
  }

  /** strings.Count(s, string(c)) for a one-character separator: the number of
      occurrences of `c` in `s`. */
  function Count(s: string, c: char): (n: nat)
    ensures n == multiset(s)[c]
    ensures n <= |s|
  {
    if s == [] then 0
    else
      assert s == [s[0]] + s[1..];
      (if s[0] == c then 1 else 0) + Count(s[1..], c)
  }

  /** Counting distributes over concatenation. */
  lemma CountAppend(a: string, b: string, c: char)
    ensures Count(a + b, c) == Count(a, c) + Count(b, c)
  {
  }

  /** The position of the first `c` in `s`, or `|s|` if there is none. */
  function IndexOf(s: string, c: char): (k: nat)
    ensures k <= |s|
    ensures k < |s| ==> s[k] == c
    ensures forall i | 0 <= i < k :: s[i] != c
  {
    if s == [] then 0
    else if s[0] == c then 0
    else 1 + IndexOf(s[1..], c)
  }

  /** unicode.IsSpace: the Latin-1 spaces and the other White_Space code points. */
  predicate IsSpace(c: char) {
    || c == '\t' || c == '\n' || c == '\U{000B}' || c == '\U{000C}' || c == '\r' || c == ' '
    || c == '\U{0085}' || c == '\U{00A0}' || c == '\U{1680}'
    || ('\U{2000}' <= c <= '\U{200A}')
    || c == '\U{2028}' || c == '\U{2029}' || c == '\U{202F}' || c == '\U{205F}' || c == '\U{3000}'
  }

  /** The number of white-space characters `s` starts with. */
  function LeadingSpaces(s: string): (n: nat)
    ensures n <= |s|
  {
    if s != [] && IsSpace(s[0]) then 1 + LeadingSpaces(s[1..]) else 0
  }

  /** The number of white-space characters `s` ends with. */
  function TrailingSpaces(s: string): (n: nat)
    ensures n <= |s|
  {
    if s != [] && IsSpace(s[|s| - 1]) then 1 + TrailingSpaces(s[..|s| - 1]) else 0
  }

  /** strings.TrimSpace: the leading white space is cut, then the trailing
      white space of what is left. */
  function TrimSpace(s: string): (t: string)
    ensures |t| <= |s|
  {
    var i := LeadingSpaces(s);
    var j := TrailingSpaces(s[i..]);
    s[i..|s| - j]
  }

  /** The leading run is white space and stops at the first other character. */
  lemma {:induction false} LeadingSpacesRun(s: string)
    ensures forall k | 0 <= k < LeadingSpaces(s) :: IsSpace(s[k])
    ensures LeadingSpaces(s) < |s| ==> !IsSpace(s[LeadingSpaces(s)])
  {
    if s != [] && IsSpace(s[0]) {
      LeadingSpacesRun(s[1..]);
      forall k | 1 <= k < LeadingSpaces(s) ensures IsSpace(s[k]) {
        assert s[k] == s[1..][k - 1];
      }
    }
  }

  /** The trailing run is white space and stops at the last other character. */
  lemma {:induction false} TrailingSpacesRun(s: string)
    ensures forall k | |s| - TrailingSpaces(s) <= k < |s| :: IsSpace(s[k])
    ensures TrailingSpaces(s) < |s| ==> !IsSpace(s[|s| - TrailingSpaces(s) - 1])
  {
    if s != [] && IsSpace(s[|s| - 1]) {
      var p := s[..|s| - 1];
      TrailingSpacesRun(p);
      forall k | |s| - TrailingSpaces(s) <= k < |s| - 1 ensures IsSpace(s[k]) {
        assert s[k] == p[k];
      }
    }
  }

  /** The trimmed string is the infix of `s` left once the white space at
      both ends is removed: all of the removed text is white space, and the
      trimmed string neither starts nor ends with white space. */
  lemma TrimSpaceInfix(s: string) returns (i: nat)
    ensures i + |TrimSpace(s)| <= |s| && TrimSpace(s) == s[i..i + |TrimSpace(s)|]
    ensures forall k | 0 <= k < i :: IsSpace(s[k])
    ensures forall k | i + |TrimSpace(s)| <= k < |s| :: IsSpace(s[k])
    ensures TrimSpace(s) != [] ==> !IsSpace(TrimSpace(s)[0]) && !IsSpace(TrimSpace(s)[|TrimSpace(s)| - 1])
  {
    i := LeadingSpaces(s);
    var rest := s[i..];
    var j := TrailingSpaces(rest);
    LeadingSpacesRun(s);
    TrailingSpacesRun(rest);
    var t := s[i..|s| - j];
    assert TrimSpace(s) == t;
    forall k | i + |t| <= k < |s| ensures IsSpace(s[k]) {
      assert s[k] == rest[k - i];
    }
    if t != [] {
      assert t[|t| - 1] == rest[|rest| - j - 1];
    }
  }

  /** A string that neither starts nor ends with white space is left as it is. */
  lemma TrimSpaceNoop(s: string)
    requires s != [] ==> !IsSpace(s[0]) && !IsSpace(s[|s| - 1])
    ensures TrimSpace(s) == s
  {
    assert LeadingSpaces(s) == 0;
    assert s[0..] == s;
    assert TrailingSpaces(s) == 0;
  }

  /** Trimming an already trimmed string changes nothing. */
  lemma TrimSpaceIdempotent(s: string)
    ensures TrimSpace(TrimSpace(s)) == TrimSpace(s)
  {
    var _ := TrimSpaceInfix(s);
    TrimSpaceNoop(TrimSpace(s));
  }

  /** One call of bufio.Reader.ReadString('\n') on the unread input `s`: the
      text up to and including the first newline, or, when there is none,
      everything that is left together with io.EOF. */
  datatype Read = Read(line: string, eof: bool)

  function ReadString(s: string): (r: Read)
    ensures r.eof <==> '\n' !in s
    ensures r.eof ==> r.line == s
    ensures !r.eof ==> 0 < |r.line| <= |s| && r.line == s[..|r.line|]
                       && r.line[|r.line| - 1] == '\n' && '\n' !in r.line[..|r.line| - 1]
  {
    var k := IndexOf(s, '\n');
    if k == |s| then Read(s, true) else Read(s[..k + 1], false)
  }

  /** The successive results of ReadString('\n') until io.EOF: every piece
      but the last ends with its newline, the last one has none (and is empty
      when the input ends with a newline). */
  function Lines(s: string): (ls: seq<string>)
    ensures |ls| >= 1
    decreases |s|
  {
    var k := IndexOf(s, '\n');
    if k == |s| then [s] else [s[..k + 1]] + Lines(s[k + 1..])
  }

  /** The concatenation of a sequence of strings. */
  function Concat(ls: seq<string>): string {
    if ls == [] then [] else ls[0] + Concat(ls[1..])
  }

  /** Reading line by line loses and invents nothing: the pieces put back
      together are the input. */
  lemma {:induction false} LinesConcat(s: string)
    ensures Concat(Lines(s)) == s
    decreases |s|
  {
    if '\n' in s {
      var k := LinesFirst(s);
      LinesConcat(s[k + 1..]);
      assert Lines(s)[1..] == Lines(s[k + 1..]);
      assert s == s[..k + 1] + s[k + 1..];
    } else {
      LinesNoNewline(s);
    }
  }

  /** Every piece but the last carries exactly one newline, at its end; the
      last carries none. */
  lemma {:induction false} LinesShape(s: string)
    ensures '\n' !in Lines(s)[|Lines(s)| - 1]
    ensures forall i | 0 <= i < |Lines(s)| - 1 ::
              var l := Lines(s)[i]; l != [] && l[|l| - 1] == '\n' && '\n' !in l[..|l| - 1]
    decreases |s|
  {
    if '\n' in s {
      var k := LinesFirst(s);
      var rest := s[k + 1..];
      LinesShape(rest);
      var l := s[..k + 1];
      assert l[..|l| - 1] == s[..k];
      assert forall i | 1 <= i < |Lines(s)| :: Lines(s)[i] == Lines(rest)[i - 1];
    } else {
      LinesNoNewline(s);
    }
  }

  /** There is one piece per newline, plus the final one. */
  lemma {:induction false} LinesCount(s: string)
    ensures |Lines(s)| == Count(s, '\n') + 1
    decreases |s|
  {
    if '\n' in s {
      var k := LinesFirst(s);
      var rest := s[k + 1..];
      LinesCount(rest);
      assert s == s[..k] + ['\n'] + rest;
      CountAppend(s[..k] + ['\n'], rest, '\n');
      CountAppend(s[..k], ['\n'], '\n');
      assert '\n' !in s[..k];
    } else {
      LinesNoNewline(s);
    }
  }

  /** Input without a newline is read as one piece. */
  lemma LinesNoNewline(s: string)
    requires '\n' !in s
    ensures Lines(s) == [s]
    ensures ReadString(s) == Read(s, true)
  {
  }

  /** Empty input is read as one empty piece. */
  lemma LinesEmpty()
    ensures Lines([]) == [[]]
  {
    assert ReadString([]).eof;
  }

  /** The first piece of input that holds a newline ends at that newline. */
  lemma LinesFirst(a: string) returns (k: nat)
    requires '\n' in a
    ensures k < |a| && a[k] == '\n'
    ensures forall i | 0 <= i < k :: a[i] != '\n'
    ensures Lines(a) == [a[..k + 1]] + Lines(a[k + 1..])
    ensures ReadString(a) == Read(a[..k + 1], false)
  {
    k := IndexOf(a, '\n');
    assert ReadString(a) == Read(a[..k + 1], false);
  }

  /** Input that ends with a newline leaves an empty last piece. */
  lemma {:induction false} LinesLastEmpty(a: string)
    requires a != [] && a[|a| - 1] == '\n'
    ensures Lines(a)[|Lines(a)| - 1] == []
    decreases |a|
  {
    assert a[|a| - 1] in a;
    var k := LinesFirst(a);
    var rest := a[k + 1..];
    if rest == [] { LinesEmpty(); } else { LinesLastEmpty(rest); }
  }

  /** Text appended after the first newline does not change the first piece. */
  lemma LinesFirstAppend(a: string, b: string) returns (k: nat)
    requires a != [] && a[|a| - 1] == '\n'
    ensures k < |a| && Lines(a) == [a[..k + 1]] + Lines(a[k + 1..])
    ensures Lines(a + b) == [a[..k + 1]] + Lines(a[k + 1..] + b)
  {
    hide IndexOf;  // LinesFirst and IndexOfPrefix say all that is needed
    assert a[|a| - 1] in a;
    k := LinesFirst(a);
    IndexOfPrefix(a, b, '\n');
    var ab := a + b;
    assert ab[..k + 1] == a[..k + 1];
    assert ab[k + 1..] == a[k + 1..] + b;
  }

  /** What follows newline-terminated input is read on its own: the empty
      last piece of `a` is replaced by the pieces of `b`. */
  lemma {:induction false} LinesAppend(a: string, b: string)
    requires a == [] || a[|a| - 1] == '\n'
    ensures Lines(a + b) == Lines(a)[..|Lines(a)| - 1] + Lines(b)
    decreases |a|
  {
    if a == [] {
      LinesEmpty();
      assert a + b == b;
    } else {
      var k := LinesFirstAppend(a, b);
      var rest := a[k + 1..];
      assert rest == [] || rest[|rest| - 1] == '\n' by {
        if rest != [] { assert rest[|rest| - 1] == a[|a| - 1]; }
      }
      LinesAppend(rest, b);
      ReplaceLast(a[..k + 1], Lines(rest), Lines(b), Lines(rest + b));
    }
  }

  lemma ReplaceLast<T>(x: T, s: seq<T>, t: seq<T>, u: seq<T>)
    requires |s| >= 1 && u == s[..|s| - 1] + t
    ensures [x] + u == ([x] + s)[..|s|] + t
  {
  }

  /** The first `c` of `a + b` is the first one of `a` when `a` has one. */
  lemma IndexOfPrefix(a: string, b: string, c: char)
    requires c in a
    ensures IndexOf(a + b, c) == IndexOf(a, c)
  {
    var k := IndexOf(a, c);
    assert (a + b)[k] == a[k];
  }
}
