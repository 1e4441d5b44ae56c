/**
 * The three string-splitting primitives of Rust's standard library that the
 * shell relies on: `str::split_ascii_whitespace` (command lines),
 * `str::split(":")` (the PATH variable) and `str::splitn(2, "=")`
 * (environment entries).
 */
module Text {
  import opened Wrappers

  /** Rust's `u8::is_ascii_whitespace`: space, tab, line feed, form feed and
      carriage return. The vertical tab (0x0B) is deliberately not included. */
  predicate IsAsciiWhitespace(c: char) {
    c == ' ' || c == '\t' || c == '\n' || c == '\U{000C}' || c == '\r'
  }

  /** What `split_ascii_whitespace` can yield: a non-empty run of
      non-whitespace characters. */
  predicate IsToken(t: string) {
    |t| > 0 && forall i :: 0 <= i < |t| ==> !IsAsciiWhitespace(t[i])
  }

  predicate AllWhitespace(s: string) {
    forall i :: 0 <= i < |s| ==> IsAsciiWhitespace(s[i])
  }

  /** Length of the longest whitespace-free prefix of `s`. */
  function WordLength(s: string): (n: nat)
    ensures n <= |s|
    ensures forall i :: 0 <= i < n ==> !IsAsciiWhitespace(s[i])
    ensures n < |s| ==> IsAsciiWhitespace(s[n])
  {
    if s == [] || IsAsciiWhitespace(s[0]) then 0 else 1 + WordLength(s[1..])
  }

  /** `s.split_ascii_whitespace()`, materialised as the sequence of its tokens. */
  function Tokenize(s: string): (tokens: seq<string>)
    ensures forall i :: 0 <= i < |tokens| ==> IsToken(tokens[i])
    decreases |s|
  {
    if s == [] then []
    else if IsAsciiWhitespace(s[0]) then Tokenize(s[1..])
    else
      var n := WordLength(s);
      [s[..n]] + Tokenize(s[n..])
  }

  /** A line yields no token exactly when it is empty or whitespace only. */
  lemma {:induction false} TokenizeEmpty(s: string)
    ensures Tokenize(s) == [] <==> AllWhitespace(s)
    decreases |s|
  {
    if s != [] {
      if IsAsciiWhitespace(s[0]) {
        TokenizeEmpty(s[1..]);
        if AllWhitespace(s[1..]) {
          forall i | 0 <= i < |s| ensures IsAsciiWhitespace(s[i]) {
            if i > 0 { assert s[i] == s[1..][i - 1]; }
          }
        } else {
          var i :| 0 <= i < |s[1..]| && !IsAsciiWhitespace(s[1..][i]);
          assert !IsAsciiWhitespace(s[i + 1]);
        }
      }
    }
  }

  /** The tokens joined back together with single spaces. */
  function JoinWords(tokens: seq<string>): string {
    if tokens == [] then []
    else if |tokens| == 1 then tokens[0]
    else tokens[0] + " " + JoinWords(tokens[1..])
  }

  lemma {:induction false} WordLengthOfWord(t: string, rest: string)
    requires forall i :: 0 <= i < |t| ==> !IsAsciiWhitespace(t[i])
    requires rest == [] || IsAsciiWhitespace(rest[0])
    ensures WordLength(t + rest) == |t|
    decreases |t|
  {
    if t != [] {
      assert (t + rest)[1..] == t[1..] + rest;
      WordLengthOfWord(t[1..], rest);
    }
  }

  /** A token followed by whitespace (or nothing) is yielded whole, and
      tokenizing carries on after it. */
  lemma TokenizeWordThen(t: string, rest: string)
    requires IsToken(t)
    requires rest == [] || IsAsciiWhitespace(rest[0])
    ensures Tokenize(t + rest) == [t] + Tokenize(rest)
  {
    var s := t + rest;
    WordLengthOfWord(t, rest);
    assert s[0] == t[0];
    assert s[..|t|] == t;
    assert s[|t|..] == rest;
  }

  /** Tokenizing a line built from well-formed tokens, joined by single
      spaces and followed by any amount of whitespace, gives back exactly
      those tokens: no token is lost, split, merged or reordered. */
  lemma {:induction false} TokenizeJoinWords(tokens: seq<string>, trailing: string)
    requires forall i :: 0 <= i < |tokens| ==> IsToken(tokens[i])
    requires AllWhitespace(trailing)
    ensures Tokenize(JoinWords(tokens) + trailing) == tokens
  {
    if tokens == [] {
      assert JoinWords(tokens) + trailing == trailing;
      TokenizeEmpty(trailing);
    } else if |tokens| == 1 {
      assert JoinWords(tokens) + trailing == tokens[0] + trailing;
      TokenizeWordThen(tokens[0], trailing);
      TokenizeEmpty(trailing);
    } else {
      var tail := tokens[1..];
      var later := JoinWords(tail) + trailing;
      var rest := " " + later;
      assert JoinWords(tokens) == tokens[0] + " " + JoinWords(tail);
      assert JoinWords(tokens) + trailing == tokens[0] + rest;
      TokenizeWordThen(tokens[0], rest);
      assert Tokenize(rest) == Tokenize(later) by {
        assert rest[0] == ' ' && rest[1..] == later;
      }
      assert forall i :: 0 <= i < |tail| ==> IsToken(tail[i]);
      TokenizeJoinWords(tail, trailing);
      assert tokens == [tokens[0]] + tail;
    }
  }

  /** Cutting a line just before a whitespace character cuts its token
      sequence in two: no token spans the cut. */
  lemma {:induction false} TokenizeAppend(a: string, b: string)
    requires b != [] && IsAsciiWhitespace(b[0])
    ensures Tokenize(a + b) == Tokenize(a) + Tokenize(b)
    decreases |a|
  {
    if a == [] {
      assert a + b == b;
    } else if IsAsciiWhitespace(a[0]) {
      assert (a + b)[1..] == a[1..] + b;
      TokenizeAppend(a[1..], b);
    } else {
      var n := WordLength(a);
      var word, rest := a[..n], a[n..];
      assert a == word + rest && a + b == word + (rest + b);
      TokenizeWordThen(word, rest);
      TokenizeWordThen(word, rest + b);
      if rest != [] {
        TokenizeAppend(rest, b);
      } else {
        assert rest + b == b;
      }
    }
  }

  /** The non-whitespace characters of `s`, in order. */
  function Squeeze(s: string): string {
    if s == [] then []
    else (if IsAsciiWhitespace(s[0]) then [] else [s[0]]) + Squeeze(s[1..])
  }

  function Concat(tokens: seq<string>): string {
    if tokens == [] then [] else tokens[0] + Concat(tokens[1..])
  }

  lemma {:induction false} SqueezeAppend(a: string, b: string)
    ensures Squeeze(a + b) == Squeeze(a) + Squeeze(b)
  {
    if a == [] {
      assert a + b == b;
    } else {
      assert (a + b)[0] == a[0];
      assert (a + b)[1..] == a[1..] + b;
      SqueezeAppend(a[1..], b);
    }
  }

  lemma {:induction false} SqueezeWord(t: string)
    requires forall i :: 0 <= i < |t| ==> !IsAsciiWhitespace(t[i])
    ensures Squeeze(t) == t
  {
    if t != [] {
      SqueezeWord(t[1..]);
    }
  }

  /** Tokenizing drops the whitespace and nothing else: the tokens, laid end
      to end, are the line's other characters in their original order. */
  lemma {:induction false} TokenizeKeepsText(s: string)
    ensures Concat(Tokenize(s)) == Squeeze(s)
    decreases |s|
  {
    if s != [] {
      if IsAsciiWhitespace(s[0]) {
        TokenizeKeepsText(s[1..]);
      } else {
        var n := WordLength(s);
        TokenizeKeepsText(s[n..]);
        assert s == s[..n] + s[n..];
        SqueezeAppend(s[..n], s[n..]);
        SqueezeWord(s[..n]);
        var tokens := [s[..n]] + Tokenize(s[n..]);
        assert tokens[1..] == Tokenize(s[n..]);
      }
    }
  }

  /** `s.split(sep)` materialised: every occurrence of `sep` ends one piece,
      so there is always at least one piece and empty pieces are kept. */
  function Split(s: string, sep: char): (parts: seq<string>)
    ensures |parts| >= 1
    ensures forall i :: 0 <= i < |parts| ==> sep !in parts[i]
  {
    if s == [] then [[]]
    else
      var rest := Split(s[1..], sep);
      if s[0] == sep then [[]] + rest else [[s[0]] + rest[0]] + rest[1..]
  }

  /** Rust's `parts.join(sep)`. */
  function Join(parts: seq<string>, sep: char): string
    requires |parts| >= 1
  {
    if |parts| == 1 then parts[0] else parts[0] + [sep] + Join(parts[1..], sep)
  }

  /** Splitting loses nothing: joining the pieces with the separator gives the
      original string back. */
  lemma {:induction false} JoinSplit(s: string, sep: char)
    ensures Join(Split(s, sep), sep) == s
  {
    if s != [] {
      var rest := Split(s[1..], sep);
      JoinSplit(s[1..], sep);
      if s[0] != sep {
        if |rest| == 1 {
        } else {
          assert Join(rest, sep) == rest[0] + [sep] + Join(rest[1..], sep);
          assert ([s[0]] + rest[0]) + [sep] + Join(rest[1..], sep) == [s[0]] + Join(rest, sep);
        }
        assert s == [s[0]] + s[1..];
      }
    }
  }

  /** Conversely, pieces free of the separator are recovered by splitting
      their join. */
  lemma {:induction false} SplitJoin(parts: seq<string>, sep: char)
    requires |parts| >= 1
    requires forall i :: 0 <= i < |parts| ==> sep !in parts[i]
    ensures Split(Join(parts, sep), sep) == parts
    decreases |parts|, |parts[0]|
  {
    var p := parts[0];
    if p == [] {
      if |parts| > 1 {
        var s := Join(parts, sep);
        assert s == [sep] + Join(parts[1..], sep);
        assert s[1..] == Join(parts[1..], sep);
        SplitJoin(parts[1..], sep);
        assert parts == [[]] + parts[1..];
      }
    } else {
      var s := Join(parts, sep);
      var tail := [p[1..]] + parts[1..];
      assert tail[1..] == parts[1..];
      assert forall j :: 0 <= j < |p[1..]| ==> p[1..][j] == p[j + 1];
      assert s[1..] == Join(tail, sep) && s[0] == p[0] && s[0] != sep;
      SplitJoin(tail, sep);
      assert [p[0]] + p[1..] == p;
    }
  }

  /** `s.splitn(2, sep)` when both pieces are taken: the text before the first
      `sep` and everything after it, or None when `sep` does not occur. */
  function SplitOnce(s: string, sep: char): (r: Option<(string, string)>)
    ensures r.None? <==> sep !in s
    ensures r.Some? ==> sep !in r.value.0 && s == r.value.0 + [sep] + r.value.1
  {
    if s == [] then None
    else if s[0] == sep then Some(([], s[1..]))
    else
      match SplitOnce(s[1..], sep)
      case None => None
      case Some((k, v)) => Some(([s[0]] + k, v))
  }

  /** The split point is the first separator: a key free of `sep` followed by
      `sep` and any value (which may itself contain `sep`) splits back into
      exactly that key and value. */
  lemma {:induction false} SplitOnceJoin(k: string, sep: char, v: string)
    requires sep !in k
    ensures SplitOnce(k + [sep] + v, sep) == Some((k, v))
  {
    if k != [] {
      assert (k + [sep] + v)[1..] == k[1..] + [sep] + v;
      SplitOnceJoin(k[1..], sep, v);
      assert [k[0]] + k[1..] == k;
    }
  }
}
