/**
 * The string splitting the checker does: `String.Split(char)` with no options,
 * the identity head of a reference (`Include.Split(',')[0]`) and the project
 * name (`path.Split('\\').Last()`).
 */
module Strings {

  /** Index of the first occurrence of `c` in `s`, or `|s|` when `c` does not occur. */
  function IndexOf(s: string, c: char): (i: nat)
    ensures i <= |s|
    ensures forall j :: 0 <= j < i ==> s[j] != c
    ensures i < |s| ==> s[i] == c
  {
    if s == [] then 0
    else if s[0] == c then 0
    else 1 + IndexOf(s[1..], c)
  }

  /**
   * The pieces of `s` between the occurrences of `sep`, as `String.Split(char)`
   * returns them: there is always at least one piece, empty pieces are kept,
   * and no piece contains the separator.
   */
  function Split(s: string, sep: char): (parts: seq<string>)
    ensures |parts| >= 1
    ensures forall k :: 0 <= k < |parts| ==> sep !in parts[k]
    decreases |s|
  {
    var i := IndexOf(s, sep);
    assert sep !in s[..i] by {
      forall j | 0 <= j < i ensures s[..i][j] != sep { }
    }
    if i == |s| then [s] else [s[..i]] + Split(s[i + 1..], sep)
  }

  /** The pieces glued back together with `sep` between them (`String.Join`). */
  function Join(parts: seq<string>, sep: char): string
  {
    if parts == [] then ""
    else if |parts| == 1 then parts[0]
    else parts[0] + [sep] + Join(parts[1..], sep)
  }

  /** One step of `Split` when the separator occurs. */
  lemma SplitStep(s: string, sep: char)
    requires IndexOf(s, sep) < |s|
    ensures var i := IndexOf(s, sep);
            Split(s, sep) == [s[..i]] + Split(s[i + 1..], sep)
  {
  }

  /** Splitting loses nothing: joining the pieces gives back the string. */
  lemma {:induction false} JoinSplit(s: string, sep: char)
    ensures Join(Split(s, sep), sep) == s
    decreases |s|
  {
    var i := IndexOf(s, sep);
    if i < |s| {
      var rest := Split(s[i + 1..], sep);
      JoinSplit(s[i + 1..], sep);
      SplitStep(s, sep);
      JoinStep(s[..i], sep, rest);
      assert s == s[..i] + [sep] + s[i + 1..];
    }
  }

  /** Joining a piece in front of at least one more. */
  lemma JoinStep(p: string, sep: char, rest: seq<string>)
    requires |rest| >= 1
    ensures Join([p] + rest, sep) == p + [sep] + Join(rest, sep)
  {
    assert ([p] + rest)[1..] == rest;
  }

  /** The first separator of `p + [sep] + rest` is the one after `p` when `p` has none. */
  lemma {:induction false} IndexOfAfterPiece(p: string, sep: char, rest: string)
    requires sep !in p
    ensures IndexOf(p + [sep] + rest, sep) == |p|
    decreases |p|
  {
    if p != [] {
      assert (p + [sep] + rest)[1..] == p[1..] + [sep] + rest;
      IndexOfAfterPiece(p[1..], sep, rest);
    }
  }

  /** Splitting a separator-free piece, a separator and more text. */
  lemma SplitAfterPiece(p: string, sep: char, rest: string)
    requires sep !in p
    ensures Split(p + [sep] + rest, sep) == [p] + Split(rest, sep)
  {
    var s := p + [sep] + rest;
    IndexOfAfterPiece(p, sep, rest);
    SplitStep(s, sep);
    assert s[..|p|] == p;
    assert s[|p| + 1..] == rest;
  }

  /** The other direction: separator-free pieces are recovered by splitting their join. */
  lemma {:induction false} SplitJoin(parts: seq<string>, sep: char)
    requires |parts| >= 1
    requires forall k :: 0 <= k < |parts| ==> sep !in parts[k]
    ensures Split(Join(parts, sep), sep) == parts
    decreases |parts|
  {
    if |parts| == 1 {
      assert IndexOf(parts[0], sep) == |parts[0]|;
    } else {
      JoinStep(parts[0], sep, parts[1..]);
      assert [parts[0]] + parts[1..] == parts;
      SplitAfterPiece(parts[0], sep, Join(parts[1..], sep));
      SplitJoin(parts[1..], sep);
    }
  }

  /** The first piece of a split is the text before the first separator. */
  lemma SplitFirst(s: string, sep: char)
    ensures Split(s, sep)[0] == s[..IndexOf(s, sep)]
  {
  }

  /** The last piece of a split. */
  function LastPiece(s: string, sep: char): string
  {
    var parts := Split(s, sep);
    parts[|parts| - 1]
  }

  /** The last piece after the first separator is the last piece of the whole. */
  lemma LastPieceStep(s: string, sep: char)
    requires IndexOf(s, sep) < |s|
    ensures LastPiece(s, sep) == LastPiece(s[IndexOf(s, sep) + 1..], sep)
  {
    var i := IndexOf(s, sep);
    var parts := Split(s[i + 1..], sep);
    var whole := Split(s, sep);
    SplitStep(s, sep);
    assert whole == [s[..i]] + parts;
    LastOfCons(s[..i], parts);
    assert |whole| - 1 == |parts|;
    assert whole[|whole| - 1] == parts[|parts| - 1];
  }

  lemma LastOfCons(p: string, parts: seq<string>)
    requires |parts| >= 1
    ensures ([p] + parts)[|parts|] == parts[|parts| - 1]
  {
  }

  /**
   * The last piece of a split is a suffix of `s`; when it is shorter than `s`,
   * the character just before it is the separator.
   */
  lemma {:induction false} SplitLast(s: string, sep: char)
    ensures var last := LastPiece(s, sep);
            |last| <= |s| && s[|s| - |last|..] == last &&
            (|last| < |s| ==> s[|s| - |last| - 1] == sep)
    decreases |s|
  {
    var i := IndexOf(s, sep);
    if i < |s| {
      var tail := s[i + 1..];
      SplitLast(tail, sep);
      LastPieceStep(s, sep);
      var last := LastPiece(tail, sep);
      SuffixOfTail(s, i + 1, last);
      if |last| == |tail| {
        assert |s| - |last| - 1 == i;
      }
    }
  }

  /** A suffix of `s[j..]` is a suffix of `s`, and a character just before it is found at the same place in `s`. */
  lemma SuffixOfTail(s: string, j: nat, last: string)
    requires j <= |s|
    requires |last| <= |s| - j && s[j..][|s| - j - |last|..] == last
    ensures s[|s| - |last|..] == last
    ensures |last| < |s| - j ==> s[|s| - |last| - 1] == s[j..][|s| - j - |last| - 1]
  {
  }

  /**
   * The identity head of a reference's `Include` value: the text before the
   * first comma (`Include.Split(',')[0]`), so the version, culture and key
   * token qualifiers are dropped.
   */
  function IdentityHead(identity: string): (head: string)
    ensures head <= identity
    ensures ',' !in head
    ensures |head| < |identity| ==> identity[|head|] == ','
    ensures ',' !in identity ==> head == identity
  {
    SplitFirst(identity, ',');
    Split(identity, ',')[0]
  }

  /** The three properties above pin the identity head down: nothing else has them. */
  lemma IdentityHeadUnique(identity: string, h: string)
    requires h <= identity && ',' !in h
    requires |h| < |identity| ==> identity[|h|] == ','
    ensures IdentityHead(identity) == h
  {
  }

  lemma IdentityHeadExample()
    ensures IdentityHead("Foo.Bar, Version=1.0.0.0, Culture=neutral") == "Foo.Bar"
  {
    IdentityHeadUnique("Foo.Bar, Version=1.0.0.0, Culture=neutral", "Foo.Bar");
  }

  /**
   * The project name: the last `\`-separated segment of the project's
   * directory (`path.Split('\\').Last()`).
   */
  function ProjectName(path: string): (name: string)
    ensures |name| <= |path| && path[|path| - |name|..] == name
    ensures '\\' !in name
    ensures |name| < |path| ==> path[|path| - |name| - 1] == '\\'
    ensures '\\' !in path ==> name == path
  {
    SplitLast(path, '\\');
    LastPiece(path, '\\')
  }

  /** The three properties above pin the project name down: nothing else has them. */
  lemma ProjectNameUnique(path: string, n: string)
    requires |n| <= |path| && path[|path| - |n|..] == n && '\\' !in n
    requires |n| < |path| ==> path[|path| - |n| - 1] == '\\'
    ensures ProjectName(path) == n
  {
  }

  lemma ProjectNameExample()
    ensures ProjectName("C:\\src\\Acme.Core") == "Acme.Core"
  {
    ProjectNameUnique("C:\\src\\Acme.Core", "Acme.Core");
  }
}
