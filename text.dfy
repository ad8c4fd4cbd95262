/** Text helpers the workflow report relies on: Rust's `[String]::join`, and
    the small parsers that serve as its inverses, used to state that the
    rendered forms lose no information. */
module Text {

  datatype Option<T> = None | Some(value: T)

  /** `parts` with `sep` between consecutive elements and nowhere else, as
      `[String]::join` produces it: an empty slice gives the empty string. */
  function Join(parts: seq<string>, sep: string): (joined: string)
  {
    if |parts| == 0 then ""
    else if |parts| == 1 then parts[0]
    else parts[0] + sep + Join(parts[1..], sep)
  }

  /** Joining one more part adds exactly one separator and that part at the end. */
  lemma {:induction false} JoinAppend(parts: seq<string>, sep: string, last: string)
    requires |parts| > 0
    ensures Join(parts + [last], sep) == Join(parts, sep) + sep + last
  {
    if |parts| == 1 {
      assert (parts + [last])[1..] == [last];
    } else {
      assert (parts + [last])[1..] == parts[1..] + [last];
      JoinAppend(parts[1..], sep, last);
    }
  }

  /** `s` cut at every occurrence of `c`; no piece contains `c`. */
  function Split(s: string, c: char): (pieces: seq<string>)
    ensures |pieces| >= 1
    ensures forall i :: 0 <= i < |pieces| ==> c !in pieces[i]
    decreases |s|
  {
    if |s| == 0 then [""]
    else
      var rest := Split(s[1..], c);
      if s[0] == c then [""] + rest else [[s[0]] + rest[0]] + rest[1..]
  }

  /** Splitting and joining again gives back the original text. */
  lemma {:induction false} JoinSplit(s: string, c: char)
    ensures Join(Split(s, c), [c]) == s
    decreases |s|
  {
    if |s| > 0 {
      var rest := Split(s[1..], c);
      JoinSplit(s[1..], c);
      if s[0] == c {
        assert ([""] + rest)[1..] == rest;
        assert s == [c] + s[1..];
      } else {
        var pieces := [[s[0]] + rest[0]] + rest[1..];
        assert pieces[1..] == rest[1..];
        if |rest| > 1 {
          assert Join(rest, [c]) == rest[0] + [c] + Join(rest[1..], [c]);
        }
        assert s == [s[0]] + s[1..];
      }
    }
  }

  /** A leading run without `c` sticks to the first piece of what follows. */
  lemma {:induction false} SplitCleanPrefix(p: string, t: string, c: char)
    requires c !in p
    ensures Split(p + t, c) == [p + Split(t, c)[0]] + Split(t, c)[1..]
    decreases |p|
  {
    var after := Split(t, c);
    if |p| == 0 {
      assert p + t == t;
      assert p + after[0] == after[0];
      assert after == [after[0]] + after[1..];
    } else {
      assert (p + t)[0] == p[0];
      assert (p + t)[1..] == p[1..] + t;
      SplitCleanPrefix(p[1..], t, c);
      var rest := Split(p[1..] + t, c);
      assert p[0] != c;
      assert Split(p + t, c) == [[p[0]] + rest[0]] + rest[1..];
      assert rest[0] == p[1..] + after[0] && rest[1..] == after[1..];
      assert [p[0]] + (p[1..] + after[0]) == p + after[0];
    }
  }

  /** Joining parts that do not contain `c` with `c`, then splitting at `c`,
      gives back exactly those parts, in order. */
  lemma {:induction false} SplitJoin(parts: seq<string>, c: char)
    requires |parts| >= 1
    requires forall i :: 0 <= i < |parts| ==> c !in parts[i]
    ensures Split(Join(parts, [c]), c) == parts
  {
    if |parts| == 1 {
      SplitCleanPrefix(parts[0], "", c);
      assert parts[0] + "" == parts[0];
    } else {
      var tail := Join(parts[1..], [c]);
      SplitJoin(parts[1..], c);
      assert ([c] + tail)[1..] == tail;
      assert Split([c] + tail, c) == [""] + parts[1..];
      SplitCleanPrefix(parts[0], [c] + tail, c);
      assert parts[0] + [c] + tail == parts[0] + ([c] + tail);
      assert parts[0] + "" == parts[0];
      assert parts == [parts[0]] + parts[1..];
    }
  }

  /** `pat` occurs in `s` starting at position `j`. */
  predicate OccursAt(s: string, pat: string, j: int)
  {
    0 <= j && j + |pat| <= |s| && s[j..j + |pat|] == pat
  }

  /** `pat` occurs somewhere in `s`. */
  predicate Contains(s: string, pat: string)
  {
    exists j :: 0 <= j <= |s| - |pat| && OccursAt(s, pat, j)
  }

  /** The start of the last occurrence of `pat` in `s`, or -1 when there is none. */
  function LastOccurrence(s: string, pat: string): (i: int)
    ensures i == -1 || OccursAt(s, pat, i)
    ensures forall j :: i < j ==> !OccursAt(s, pat, j)
    decreases |s|
  {
    if |s| < |pat| then -1
    else if s[|s| - |pat|..] == pat then |s| - |pat|
    else
      var shorter := s[..|s| - 1];
      assert forall j :: OccursAt(s, pat, j) && j + |pat| < |s| ==> OccursAt(shorter, pat, j) by {
        forall j | OccursAt(s, pat, j) && j + |pat| < |s|
          ensures OccursAt(shorter, pat, j)
        {
          assert shorter[j..j + |pat|] == s[j..j + |pat|];
        }
      }
      LastOccurrence(shorter, pat)
  }

  /** The text between `prefix` and a closing parenthesis that ends `r`,
      when `r` has that shape. */
  function Unwrap(prefix: string, r: string): (inner: Option<string>)
  {
    if |prefix| < |r| && r[..|prefix|] == prefix && r[|r| - 1] == ')'
    then Some(r[|prefix|..|r| - 1])
    else None
  }

  /** Unwrap recovers any body from `prefix + body + ")"`. */
  lemma UnwrapWrapped(prefix: string, body: string)
    ensures Unwrap(prefix, prefix + body + ")") == Some(body)
  {
  }
}
