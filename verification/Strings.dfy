/** Splitting, joining and trimming of strings. */
module Strings {

  // Equalities of sequences, apart from the functions below.

  lemma Assoc<T>(a: seq<T>, b: seq<T>, c: seq<T>)
    ensures a + b + c == a + (b + c)
  {
  }

  lemma Nil<T>(v: seq<T>)
    ensures [] + v == v && v + [] == v
  {
  }

  lemma Uncons<T>(v: seq<T>, i: nat)
    requires i < |v|
    ensures [v[i]] + v[i + 1..] == v[i..]
  {
  }

  /** The Unicode property White_Space. */
  predicate IsWhitespace(c: char) {
    || '\U{9}' <= c <= '\U{D}' || c == ' ' || c == '\U{85}' || c == '\U{A0}'
    || c == '\U{1680}' || '\U{2000}' <= c <= '\U{200A}' || c == '\U{2028}' || c == '\U{2029}'
    || c == '\U{202F}' || c == '\U{205F}' || c == '\U{3000}'
  }

  /** Neither end is white space. */
  predicate Trimmed(s: string) {
    s == "" || (!IsWhitespace(s[0]) && !IsWhitespace(s[|s| - 1]))
  }

  function TrimEnd(s: string): (r: string)
    ensures r <= s && (r == "" || !IsWhitespace(r[|r| - 1]))
  {
    if s != "" && IsWhitespace(s[|s| - 1]) then TrimEnd(s[..|s| - 1]) else s
  }

  function Trim(s: string): (r: string)
    ensures Trimmed(r)
    ensures Trimmed(s) ==> r == s
    ensures forall c :: c in r ==> c in s
  {
    if s != "" && IsWhitespace(s[0]) then Trim(s[1..]) else TrimEnd(s)
  }

  function StripWhitespace(s: string): string {
    if s == "" then ""
    else (if IsWhitespace(s[0]) then "" else [s[0]]) + StripWhitespace(s[1..])
  }

  /** The pieces of a string with one more character in front. */
  function Prepend(x: char, sep: char, v: seq<string>): seq<string>
    requires v != []
  {
    if x == sep then [""] + v else [[x] + v[0]] + v[1..]
  }

  /** The pieces between the separators; never empty. */
  function Split(s: string, sep: char): (r: seq<string>)
    ensures |r| >= 1
    ensures forall i :: 0 <= i < |r| ==> sep !in r[i]
  {
    if s == "" then [""] else Prepend(s[0], sep, Split(s[1..], sep))
  }

  function Join(v: seq<string>, sep: char): string {
    if v == [] then ""
    else if |v| == 1 then v[0]
    else v[0] + [sep] + Join(v[1..], sep)
  }

  lemma {:induction false} SplitWhole(a: string, sep: char)
    requires sep !in a
    ensures Split(a, sep) == [a]
  {
    if a != "" {
      SplitWhole(a[1..], sep);
      assert [a[0]] + a[1..] == a;
    }
  }

  lemma {:induction false} SplitFirst(a: string, b: string, sep: char)
    requires sep !in a
    ensures Split(a + [sep] + b, sep) == [a] + Split(b, sep)
  {
    var s := a + [sep] + b;
    if a == "" {
      assert s[1..] == b;
    } else {
      SplitFirst(a[1..], b, sep);
      assert s[1..] == a[1..] + [sep] + b;
      assert [a[0]] + a[1..] == a;
    }
  }

  lemma JoinCons(a: string, v: seq<string>, sep: char)
    requires v != []
    ensures Join([a] + v, sep) == a + [sep] + Join(v, sep)
  {
    assert ([a] + v)[1..] == v;
  }

  lemma SplitJoinStep(a: string, v: seq<string>, x: string, sep: char)
    requires sep !in a && Split(Join(v + [x], sep), sep) == v + Split(x, sep)
    ensures Split(Join([a] + v + [x], sep), sep) == [a] + v + Split(x, sep)
  {
    JoinCons(a, v + [x], sep);
    SplitFirst(a, Join(v + [x], sep), sep);
    Assoc([a], v, [x]);
    Assoc([a], v, Split(x, sep));
  }

  /** Joining and splitting takes only the last string apart, if the others are whole. */
  lemma {:induction false} SplitJoinLast(v: seq<string>, x: string, sep: char)
    requires forall i :: 0 <= i < |v| ==> sep !in v[i]
    ensures Split(Join(v + [x], sep), sep) == v + Split(x, sep)
  {
    if v == [] {
      assert v + [x] == [x] && v + Split(x, sep) == Split(x, sep);
    } else {
      SplitJoinLast(v[1..], x, sep);
      SplitJoinStep(v[0], v[1..], x, sep);
      Uncons(v, 0);
    }
  }

  /** Splitting undoes joining. */
  lemma SplitJoin(v: seq<string>, sep: char)
    requires v != [] && forall i :: 0 <= i < |v| ==> sep !in v[i]
    ensures Split(Join(v, sep), sep) == v
  {
    var front, last := v[..|v| - 1], v[|v| - 1];
    assert front + [last] == v;
    SplitJoinLast(front, last, sep);
    SplitWhole(last, sep);
  }

  lemma PrependConcat(x: char, sep: char, v: seq<string>, w: seq<string>)
    requires v != []
    ensures Prepend(x, sep, v + w) == Prepend(x, sep, v) + w
  {
  }

  lemma SplitCons(x: char, s: string, sep: char)
    ensures Split([x] + s, sep) == Prepend(x, sep, Split(s, sep))
  {
    assert ([x] + s)[1..] == s;
  }

  lemma SplitConcatStep(x: char, a: string, b: string, sep: char)
    requires Split(a + [sep] + b, sep) == Split(a, sep) + Split(b, sep)
    ensures Split([x] + a + [sep] + b, sep) == Split([x] + a, sep) + Split(b, sep)
  {
    SplitCons(x, a, sep);
    SplitCons(x, a + [sep] + b, sep);
    PrependConcat(x, sep, Split(a, sep), Split(b, sep));
    Assoc([x], a, [sep]);
    Assoc([x], a + [sep], b);
  }

  lemma {:induction false} SplitConcat(a: string, b: string, sep: char)
    ensures Split(a + [sep] + b, sep) == Split(a, sep) + Split(b, sep)
  {
    if a == "" {
      SplitFirst(a, b, sep);
    } else {
      SplitConcat(a[1..], b, sep);
      SplitConcatStep(a[0], a[1..], b, sep);
      Uncons(a, 0);
    }
  }

  lemma {:induction false} LastPiece(s: string, sep: char)
    ensures Split(s, sep)[|Split(s, sep)| - 1] == "" <==> s == "" || s[|s| - 1] == sep
  {
    if s != "" { LastPiece(s[1..], sep); }
  }

  lemma JoinHead(x: char, v: seq<string>, sep: char)
    requires v != [] && x != sep
    ensures Join([[x] + v[0]] + v[1..], sep) == [x] + Join(v, sep)
  {
    if |v| > 1 {
      assert ([[x] + v[0]] + v[1..])[1..] == v[1..];
      Assoc([x], v[0], [sep]);
      Assoc([x], v[0] + [sep], Join(v[1..], sep));
    }
  }

  /** Joining undoes splitting, for any string. */
  lemma {:induction false} JoinSplit(s: string, sep: char)
    ensures Join(Split(s, sep), sep) == s
  {
    if s != "" {
      var x, v := s[0], Split(s[1..], sep);
      JoinSplit(s[1..], sep);
      Uncons(s, 0);
      if x == sep {
        JoinCons("", v, sep);
      } else {
        JoinHead(x, v, sep);
      }
    }
  }

  predicate Blank(s: string) { forall i :: 0 <= i < |s| ==> IsWhitespace(s[i]) }

  lemma {:induction false} TrimEndPad(s: string, b: string)
    requires Blank(b) && (s == "" || !IsWhitespace(s[|s| - 1]))
    ensures TrimEnd(s + b) == s
  {
    if b == "" {
      assert s + b == s;
    } else {
      var front := b[..|b| - 1];
      TrimEndPad(s, front);
      assert (s + b)[..|s + b| - 1] == s + front;
    }
  }

  /** Trimming takes off all white space at both ends, and nothing else. */
  lemma {:induction false} TrimPad(a: string, s: string, b: string)
    requires Blank(a) && Blank(b) && Trimmed(s)
    ensures Trim(a + s + b) == s
  {
    if a != "" {
      TrimPad(a[1..], s, b);
      assert (a + s + b)[1..] == a[1..] + s + b;
    } else if s != "" {
      TrimEndPad(s, b);
      assert a + s + b == s + b;
    } else {
      assert a + s + b == b;
      TrimBlank(b);
    }
  }

  lemma {:induction false} TrimBlank(b: string)
    requires Blank(b)
    ensures Trim(b) == ""
  {
    if b != "" { TrimBlank(b[1..]); }
  }
}
