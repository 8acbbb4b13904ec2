/**
 * The JavaScript string operations the stream decoder relies on:
 * `String.prototype.split` with a one-character separator, `String.prototype.trim`
 * and the blank-line filter built from it. Strings are sequences of `char`.
 */
module JsText {

  /** The characters `trim()` removes: ECMAScript WhiteSpace (including every
      space separator) and LineTerminator code points. */
  predicate IsJsSpace(c: char) {
    var n := c as int;
    n == 0x09 || n == 0x0A || n == 0x0B || n == 0x0C || n == 0x0D || n == 0x20
    || n == 0xA0 || n == 0x1680 || (0x2000 <= n <= 0x200A) || n == 0x2028
    || n == 0x2029 || n == 0x202F || n == 0x205F || n == 0x3000 || n == 0xFEFF
  }

  predicate AllSpace(s: string) {
    forall i :: 0 <= i < |s| ==> IsJsSpace(s[i])
  }

  /** A string that `trim()` leaves as it is. */
  predicate IsTrimmed(s: string) {
    s == [] || (!IsJsSpace(s[0]) && !IsJsSpace(s[|s| - 1]))
  }

  /** Drops leading white space. */
  function TrimStart(s: string): string {
    if s != [] && IsJsSpace(s[0]) then TrimStart(s[1..]) else s
  }

  /** Drops trailing white space. */
  function TrimEnd(s: string): string {
    if s != [] && IsJsSpace(s[|s| - 1]) then TrimEnd(s[..|s| - 1]) else s
  }

  /** `s.trim()`: white space removed from both ends. What it returns has no
      white space at either end. */
  function Trim(s: string): (r: string)
    ensures IsTrimmed(r) && |r| <= |s|
  {
    var t := TrimStart(s);
    TrimStartSpec(s);
    TrimEndSpec(t);
    var r := TrimEnd(t);
    assert r != [] ==> r[0] == t[0];
    r
  }

  /** TrimStart leaves a suffix that starts with a non-space, and cuts only white space. */
  lemma {:induction false} TrimStartSpec(s: string)
    ensures var r := TrimStart(s);
      |r| <= |s| && r == s[|s| - |r|..] && AllSpace(s[..|s| - |r|])
      && (r == [] || !IsJsSpace(r[0]))
  {
    if s != [] && IsJsSpace(s[0]) {
      TrimStartSpec(s[1..]);
      var r := TrimStart(s[1..]);
      assert s[1..][..|s| - 1 - |r|] == s[1..|s| - |r|];
      assert forall i :: 1 <= i < |s| - |r| ==> s[i] == s[1..|s| - |r|][i - 1];
    }
  }

  /** TrimEnd leaves a prefix that ends with a non-space, and cuts only white space. */
  lemma {:induction false} TrimEndSpec(s: string)
    ensures var r := TrimEnd(s);
      |r| <= |s| && r == s[..|r|] && AllSpace(s[|r|..])
      && (r == [] || !IsJsSpace(r[|r| - 1]))
  {
    if s != [] && IsJsSpace(s[|s| - 1]) {
      var p := s[..|s| - 1];
      TrimEndSpec(p);
      var r := TrimEnd(p);
      assert p[..|r|] == s[..|r|];
      assert forall i :: |r| <= i < |s| - 1 ==> s[i] == p[|r|..][i - |r|];
    }
  }

  /** `trim()` introduces no character. */
  lemma TrimChars(s: string)
    ensures forall c :: c in Trim(s) ==> c in s
  {
    TrimStartSpec(s);
    TrimEndSpec(TrimStart(s));
  }

  /** The blank-line test of the decoder's filter: `line.trim() === ''`. */
  predicate IsBlank(s: string) {
    Trim(s) == ""
  }

  /** `s.split(sep)` for a one-character separator: the maximal separator-free
      pieces, in order, one more than there are separators. */
  function Split(s: string, sep: char): (r: seq<string>)
    ensures |r| >= 1
    ensures forall i :: 0 <= i < |r| ==> sep !in r[i]
  {
    if s == [] then [[]]
    else
      var rest := Split(s[1..], sep);
      if s[0] == sep then [[]] + rest
      else [[s[0]] + rest[0]] + rest[1..]
  }

  /** `parts.join(sep)`; the inverse of Split. */
  function Join(parts: seq<string>, sep: char): string
    requires |parts| >= 1
  {
    if |parts| == 1 then parts[0] else parts[0] + [sep] + Join(parts[1..], sep)
  }

  /** `lines.filter(line => line.trim() !== '')`. */
  function NonBlank(lines: seq<string>): seq<string> {
    if lines == [] then []
    else (if IsBlank(lines[0]) then [] else [lines[0]]) + NonBlank(lines[1..])
  }

  /** Complete, non-blank lines: none holds a line break, none is blank. */
  predicate AreLines(ls: seq<string>) {
    forall i :: 0 <= i < |ls| ==> '\n' !in ls[i] && !IsBlank(ls[i])
  }

  /** The lines of a chunk the decoder looks at: `chunk.split('\n')` without blank pieces. */
  function NonBlankLines(chunk: string): (r: seq<string>)
    ensures AreLines(r)
  {
    NonBlankKeeps(Split(chunk, '\n'));
    assert forall i :: 0 <= i < |NonBlank(Split(chunk, '\n'))| ==> NonBlank(Split(chunk, '\n'))[i] in NonBlank(Split(chunk, '\n'));
    NonBlank(Split(chunk, '\n'))
  }

  /** A string is blank exactly when every character is white space. */
  lemma BlankIff(s: string)
    ensures IsBlank(s) <==> AllSpace(s)
  {
    var t := TrimStart(s);
    TrimStartSpec(s);
    assert t != [] ==> t[0] == s[|s| - |t|];
    assert t == [] ==> s[..|s| - |t|] == s;
    if t != [] {
      TrimEndKeepsHead(t);
    }
  }

  lemma {:induction false} TrimEndKeepsHead(t: string)
    requires t != [] && !IsJsSpace(t[0])
    ensures TrimEnd(t) != []
  {
    if |t| > 1 && IsJsSpace(t[|t| - 1]) {
      TrimEndKeepsHead(t[..|t| - 1]);
    }
  }

  /** Trim is the unique way of cutting white space off both ends: any string
      `a + m + b` with white-space `a` and `b` and a trimmed middle trims to `m`. */
  lemma {:induction false} TrimUnique(a: string, m: string, b: string)
    requires AllSpace(a) && AllSpace(b) && IsTrimmed(m)
    ensures Trim(a + m + b) == m
  {
    assert a + m + b == a + (m + b);
    if m == [] {
      assert AllSpace(a + b);
      TrimStartOf(a + b, []);
      assert a + b + [] == a + b;
      assert a + m + b == a + b + [];
    } else {
      TrimStartOf(a, m + b);
      TrimEndOf(m, b);
    }
  }

  lemma {:induction false} TrimStartOf(a: string, t: string)
    requires AllSpace(a) && (t == [] || !IsJsSpace(t[0]))
    ensures TrimStart(a + t) == t
  {
    if a != [] {
      assert (a + t)[1..] == a[1..] + t;
      TrimStartOf(a[1..], t);
    } else {
      assert a + t == t;
    }
  }

  lemma {:induction false} TrimEndOf(m: string, b: string)
    requires AllSpace(b) && (m == [] || !IsJsSpace(m[|m| - 1]))
    ensures TrimEnd(m + b) == m
  {
    if b != [] {
      assert (m + b)[..|m + b| - 1] == m + b[..|b| - 1];
      TrimEndOf(m, b[..|b| - 1]);
    } else {
      assert m + b == m;
    }
  }

  /** Trimming twice changes nothing more than trimming once. */
  lemma TrimIdempotent(s: string)
    ensures Trim(Trim(s)) == Trim(s)
  {
    TrimUnique([], Trim(s), []);
    assert [] + Trim(s) + [] == Trim(s);
  }

  /** Joining the pieces of a split gives the original string back. */
  lemma {:induction false} JoinSplit(s: string, sep: char)
    ensures Join(Split(s, sep), sep) == s
  {
    if s != [] {
      JoinSplit(s[1..], sep);
      var rest := Split(s[1..], sep);
      if s[0] == sep {
        var r: seq<string> := [[]] + rest;
        assert r[1..] == rest;
      } else {
        var r := [[s[0]] + rest[0]] + rest[1..];
        if |rest| > 1 {
          assert r[1..] == rest[1..];
        }
      }
    }
  }

  /** Splitting the join of separator-free pieces gives the pieces back. */
  lemma {:induction false} SplitJoin(parts: seq<string>, sep: char)
    requires |parts| >= 1
    requires forall i :: 0 <= i < |parts| ==> sep !in parts[i]
    ensures Split(Join(parts, sep), sep) == parts
  {
    if |parts| == 1 {
      SplitNoSep(parts[0], sep);
    } else {
      SplitJoin(parts[1..], sep);
      SplitAround(parts[0], Join(parts[1..], sep), sep);
      SplitNoSep(parts[0], sep);
      assert [parts[0]] + parts[1..] == parts;
    }
  }

  /** A string without the separator splits into itself alone. */
  lemma {:induction false} SplitNoSep(s: string, sep: char)
    requires sep !in s
    ensures Split(s, sep) == [s]
  {
    if s != [] {
      assert sep !in s[1..];
      SplitNoSep(s[1..], sep);
      assert [s[0]] + s[1..] == s;
    }
  }

  /** A separator between `u` and `v` splits them apart: the pieces of `u` then those of `v`. */
  lemma {:induction false} SplitAround(u: string, v: string, sep: char)
    ensures Split(u + [sep] + v, sep) == Split(u, sep) + Split(v, sep)
  {
    var w := u + [sep] + v;
    if u == [] {
      assert w == [sep] + v;
      assert w[1..] == v;
    } else {
      assert w[0] == u[0];
      assert w[1..] == u[1..] + [sep] + v;
      SplitAround(u[1..], v, sep);
      var ru := Split(u[1..], sep);
      var rv := Split(v, sep);
      if u[0] == sep {
        assert Split(w, sep) == [[]] + (ru + rv);
      } else {
        assert Split(w, sep) == [[u[0]] + (ru + rv)[0]] + (ru + rv)[1..];
        assert (ru + rv)[0] == ru[0];
        assert (ru + rv)[1..] == ru[1..] + rv;
      }
    }
  }

  /** The blank filter keeps order: filtering a concatenation concatenates the filtered parts. */
  lemma {:induction false} NonBlankAppend(a: seq<string>, b: seq<string>)
    ensures NonBlank(a + b) == NonBlank(a) + NonBlank(b)
  {
    if a != [] {
      assert (a + b)[0] == a[0];
      assert (a + b)[1..] == a[1..] + b;
      NonBlankAppend(a[1..], b);
    } else {
      assert a + b == b;
    }
  }

  /** The filter keeps exactly the non-blank lines. */
  lemma {:induction false} NonBlankKeeps(lines: seq<string>)
    ensures forall l :: l in NonBlank(lines) <==> l in lines && !IsBlank(l)
  {
    if lines != [] {
      NonBlankKeeps(lines[1..]);
      assert lines == [lines[0]] + lines[1..];
    }
  }

  /** A chunk that ends on a line break decodes, line for line, like its two halves
      decoded apart: the lines of `u + "\n" + v` are those of `u` then those of `v`. */
  lemma LinesAround(u: string, v: string)
    ensures NonBlankLines(u + "\n" + v) == NonBlankLines(u) + NonBlankLines(v)
  {
    SplitAround(u, v, '\n');
    NonBlankAppend(Split(u, '\n'), Split(v, '\n'));
  }

  /** A non-blank string without a line break is a chunk of exactly one line. */
  lemma OneLine(s: string)
    requires '\n' !in s && !IsBlank(s)
    ensures NonBlankLines(s) == [s]
  {
    SplitNoSep(s, '\n');
    assert NonBlank([s]) == [s] + NonBlank([]);
  }
}
