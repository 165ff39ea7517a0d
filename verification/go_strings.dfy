/** Go's `strings.Split` and `strings.Join`, specialised to a one-character separator,
    which is how the MAC normaliser uses them. */
module GoStrings {

  /** `strings.Split(s, sep)`: the maximal pieces of `s` between occurrences of `sep`.
      There is always one more piece than there are separators, so the empty
      string splits into one empty piece, and no piece contains the separator. */
  function Split(s: string, sep: char): (r: seq<string>)
    ensures |r| == multiset(s)[sep] + 1
    ensures forall i :: 0 <= i < |r| ==> sep !in r[i]
    decreases |s|
  {
    if |s| == 0 then [""]
    else
      assert s == [s[0]] + s[1..];
      var rest := Split(s[1..], sep);
      if s[0] == sep then [""] + rest
      else [[s[0]] + rest[0]] + rest[1..]
  }

  /** `strings.Join(parts, sep)`: the pieces with one separator between neighbours. */
  function Join(parts: seq<string>, sep: char): string
  {
    if |parts| == 0 then ""
    else if |parts| == 1 then parts[0]
    else parts[0] + [sep] + Join(parts[1..], sep)
  }

  lemma JoinCons(p: string, rest: seq<string>, sep: char)
    requires |rest| >= 1
    ensures Join([p] + rest, sep) == p + [sep] + Join(rest, sep)
  {
    assert ([p] + rest)[1..] == rest;
  }

  /** Joining the pieces of a split gives back the original string. */
  lemma {:induction false} JoinSplit(s: string, sep: char)
    ensures Join(Split(s, sep), sep) == s
    decreases |s|
  {
    if |s| > 0 {
      JoinSplit(s[1..], sep);
      if s[0] == sep {
        JoinSplitSeparatorHead(s, sep);
      } else {
        JoinSplitOtherHead(s, sep);
      }
    }
  }

  lemma JoinSplitSeparatorHead(s: string, sep: char)
    requires |s| > 0 && s[0] == sep
    requires Join(Split(s[1..], sep), sep) == s[1..]
    ensures Join(Split(s, sep), sep) == s
  {
    var rest := Split(s[1..], sep);
    assert Split(s, sep) == [""] + rest;
    JoinCons("", rest, sep);
    assert s == [sep] + s[1..];
  }

  lemma JoinSplitOtherHead(s: string, sep: char)
    requires |s| > 0 && s[0] != sep
    requires Join(Split(s[1..], sep), sep) == s[1..]
    ensures Join(Split(s, sep), sep) == s
  {
    var rest := Split(s[1..], sep);
    var head := [s[0]] + rest[0];
    assert Split(s, sep) == [head] + rest[1..];
    if |rest| == 1 {
      assert Join(Split(s, sep), sep) == head;
      assert s == [s[0]] + s[1..];
    } else {
      JoinExtendHead(s[0], rest, sep);
      assert s == [s[0]] + s[1..];
    }
  }

  /** Prepending a character to the first piece prepends it to the join. */
  lemma JoinExtendHead(c: char, parts: seq<string>, sep: char)
    requires |parts| > 1
    ensures Join([[c] + parts[0]] + parts[1..], sep) == [c] + Join(parts, sep)
  {
    var tail := parts[1..];
    assert parts == [parts[0]] + tail;
    JoinCons(parts[0], tail, sep);
    JoinCons([c] + parts[0], tail, sep);
  }

  /** A string without the separator splits into itself alone. */
  lemma {:induction false} SplitNoSeparator(a: string, sep: char)
    requires sep !in a
    ensures Split(a, sep) == [a]
    decreases |a|
  {
    if |a| > 0 {
      SplitNoSeparator(a[1..], sep);
      assert a == [a[0]] + a[1..];
    }
  }

  /** A separator-free prefix followed by the separator becomes the first piece. */
  lemma {:induction false} SplitAtSeparator(a: string, b: string, sep: char)
    requires sep !in a
    ensures Split(a + [sep] + b, sep) == [a] + Split(b, sep)
    decreases |a|
  {
    var s := a + [sep] + b;
    if |a| == 0 {
      assert s[1..] == b;
    } else {
      assert s[1..] == a[1..] + [sep] + b;
      SplitAtSeparator(a[1..], b, sep);
      assert [a[0]] + a[1..] == a;
    }
  }

  /** Splitting a join of separator-free pieces gives back the pieces, in order. */
  lemma {:induction false} SplitJoin(parts: seq<string>, sep: char)
    requires |parts| >= 1
    requires forall i :: 0 <= i < |parts| ==> sep !in parts[i]
    ensures Split(Join(parts, sep), sep) == parts
    decreases |parts|
  {
    if |parts| == 1 {
      SplitNoSeparator(parts[0], sep);
    } else {
      SplitJoin(parts[1..], sep);
      SplitAtSeparator(parts[0], Join(parts[1..], sep), sep);
      assert parts == [parts[0]] + parts[1..];
    }
  }

  /** A join of `n` separator-free pieces holds exactly `n - 1` separators. */
  lemma {:induction false} JoinSeparatorCount(parts: seq<string>, sep: char)
    requires |parts| >= 1
    requires forall i :: 0 <= i < |parts| ==> sep !in parts[i]
    ensures multiset(Join(parts, sep))[sep] == |parts| - 1
  {
    SplitJoin(parts, sep);
  }

  /** Every character of a join is the separator or a character of some piece. */
  lemma {:induction false} JoinCharacters(parts: seq<string>, sep: char)
    ensures forall k :: 0 <= k < |Join(parts, sep)| ==>
      Join(parts, sep)[k] == sep || exists i :: 0 <= i < |parts| && Join(parts, sep)[k] in parts[i]
    decreases |parts|
  {
    if |parts| > 1 {
      var tail := parts[1..];
      JoinCharacters(tail, sep);
      var r := Join(parts, sep);
      var t := Join(tail, sep);
      assert r == parts[0] + [sep] + t;
      forall k | 0 <= k < |r| && r[k] != sep
        ensures exists i :: 0 <= i < |parts| && r[k] in parts[i]
      {
        if k < |parts[0]| {
          assert r[k] in parts[0];
        } else {
          assert r[k] == t[k - |parts[0]| - 1];
          var i :| 0 <= i < |tail| && r[k] in tail[i];
          assert tail[i] == parts[i + 1];
        }
      }
    } else if |parts| == 1 {
      assert forall k :: 0 <= k < |parts[0]| ==> parts[0][k] in parts[0];
    }
  }
}
