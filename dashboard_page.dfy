/**
 * The dashboard's recent-activity list: the avatar fallback shows a user's
 * initials, `user.split(' ').map(n => n[0]).join('')`.
 */
module DashboardPage {
  import Text

  /**
   * `s.split(sep)` for a one-character separator: the pieces between
   * separators, including empty ones at the ends and between neighbouring
   * separators; the empty string splits into one empty piece.
   */
  function Split(s: string, sep: char): (parts: seq<string>)
    ensures |parts| >= 1
    ensures forall i :: 0 <= i < |parts| ==> sep !in parts[i]
  {
    if s == [] then [""]
    else if s[0] == sep then [""] + Split(s[1..], sep)
    else
      var rest := Split(s[1..], sep);
      [[s[0]] + rest[0]] + rest[1..]
  }

  /** Joining the pieces with the separator gives the input back. */
  lemma {:induction false} SplitJoin(s: string, sep: char)
    ensures Text.Join([sep], Split(s, sep)) == s
  {
    if s != [] {
      SplitJoin(s[1..], sep);
      var rest := Split(s[1..], sep);
      if s[0] != sep {
        var parts := Split(s, sep);
        assert parts[1..] == rest[1..];
        if |rest| > 1 {
          assert Text.Join([sep], rest) == rest[0] + [sep] + Text.Join([sep], rest[1..]);
        }
      }
    }
  }

  /** Number of occurrences of `c` in `s`. */
  function Occurrences(s: string, c: char): nat {
    if s == [] then 0 else (if s[0] == c then 1 else 0) + Occurrences(s[1..], c)
  }

  /** There is one more piece than there are separators. */
  lemma {:induction false} SplitCount(s: string, sep: char)
    ensures |Split(s, sep)| == Occurrences(s, sep) + 1
  {
    if s != [] {
      SplitCount(s[1..], sep);
    }
  }

  /** The non-empty pieces, in order. */
  function NonEmpty(parts: seq<string>): (r: seq<string>)
    ensures |r| <= |parts|
    ensures forall i :: 0 <= i < |r| ==> r[i] != "" && r[i] in parts
    ensures forall p :: p in parts && p != "" ==> p in r
  {
    if parts == [] then []
    else (if parts[0] == "" then [] else [parts[0]]) + NonEmpty(parts[1..])
  }

  /**
   * Dropping the empty pieces works piece by piece: it distributes over
   * concatenation and keeps a single piece exactly when it is non-empty, so
   * the non-empty pieces are all kept, in order, with their repeats.
   */
  lemma {:induction false} NonEmptyAppend(a: seq<string>, b: seq<string>)
    ensures NonEmpty(a + b) == NonEmpty(a) + NonEmpty(b)
  {
    if a != [] {
      NonEmptyAppend(a[1..], b);
      var h := if a[0] == "" then [] else [a[0]];
      assert (a + b)[0] == a[0] && (a + b)[1..] == a[1..] + b;
      assert NonEmpty(a + b) == h + NonEmpty(a[1..] + b);
      assert NonEmpty(a) == h + NonEmpty(a[1..]);
    } else {
      assert a + b == b;
    }
  }

  lemma NonEmptyOne(p: string)
    ensures NonEmpty([p]) == if p == "" then [] else [p]
  {
    assert [p][1..] == [];
  }

  /**
   * `parts.map(n => n[0]).join('')`: the first character of each piece; an
   * empty piece gives `undefined`, which `join` renders as nothing. Character
   * `k` of the result is the first character of the `k`-th non-empty piece.
   */
  function FirstChars(parts: seq<string>): (r: string)
    ensures |r| == |NonEmpty(parts)|
    ensures forall k :: 0 <= k < |r| ==> r[k] == NonEmpty(parts)[k][0]
  {
    if parts == [] then ""
    else (if parts[0] == "" then "" else [parts[0][0]]) + FirstChars(parts[1..])
  }

  /**
   * The initials hold one character per non-empty space-separated part of
   * the name, the first character of that part, in order; empty parts (from
   * leading, trailing or repeated spaces) contribute nothing.
   */
  function Initials(user: string): (r: string)
    ensures var parts := Split(user, ' ');
      && |r| == |NonEmpty(parts)| <= |parts| == Occurrences(user, ' ') + 1
      && forall k :: 0 <= k < |r| ==> NonEmpty(parts)[k] in parts && r[k] == NonEmpty(parts)[k][0]
  {
    SplitCount(user, ' ');
    FirstChars(Split(user, ' '))
  }

  /** A piece without the separator splits into itself. */
  lemma {:induction false} SplitWord(w: string, sep: char)
    requires sep !in w
    ensures Split(w, sep) == [w]
  {
    if w != [] {
      assert w[0] != sep && sep !in w[1..];
      SplitWord(w[1..], sep);
      assert [w[0]] + w[1..] == w;
    }
  }

  /** A piece followed by the separator becomes the first part. */
  lemma {:induction false} SplitAfterWord(w: string, rest: string, sep: char)
    requires sep !in w
    ensures Split(w + [sep] + rest, sep) == [w] + Split(rest, sep)
  {
    var s := w + [sep] + rest;
    if w == [] {
      assert s == [sep] + rest;
      assert s[1..] == rest;
    } else {
      assert s[0] == w[0] != sep && sep !in w[1..];
      assert s[1..] == w[1..] + [sep] + rest;
      SplitAfterWord(w[1..], rest, sep);
      assert [w[0]] + w[1..] == w;
    }
  }

  lemma InitialsExamples()
    ensures Initials("John Doe") == "JD"
    ensures Initials("") == ""
  {
    assert "John Doe" == "John" + [' '] + "Doe";
    SplitAfterWord("John", "Doe", ' ');
    SplitWord("Doe", ' ');
    var parts := ["John", "Doe"];
    assert Split("John Doe", ' ') == parts;
    assert parts[1..] == ["Doe"] && ["Doe"][1..] == [];
    assert FirstChars(["Doe"]) == "D";
    assert FirstChars(parts) == "JD";
  }
}
