/** String operations the resolver and the card request rely on: Python's
    `str.lower()` (restricted to ASCII) and `','.join(...)`, with `split`
    as the inverse of join. */
module Text {
  import opened Seqs

  /** ASCII lower-casing of one character. */
  function LowerChar(c: char): (r: char)
    ensures 'A' <= c <= 'Z' ==> r as int == c as int + 32
    ensures !('A' <= c <= 'Z') ==> r == c
    ensures !('A' <= r <= 'Z')
  {
    if 'A' <= c <= 'Z' then (c as int + 32) as char else c
  }

  /** `s.lower()`, character by character. */
  function Lower(s: string): (r: string)
    ensures |r| == |s|
    ensures forall i :: 0 <= i < |s| ==> r[i] == LowerChar(s[i])
  {
    if |s| == 0 then "" else [LowerChar(s[0])] + Lower(s[1..])
  }

  /** Lower-casing is idempotent, so comparing lowered strings is an
      equivalence that ignores case. */
  lemma LowerIdempotent(s: string)
    ensures Lower(Lower(s)) == Lower(s)
  {
  }

  /** `c` and `d` are the same ASCII letter in different case. */
  predicate CasePair(c: char, d: char) {
    || ('A' <= c <= 'Z' && d as int == c as int + 32)
    || ('A' <= d <= 'Z' && c as int == d as int + 32)
  }

  /** Two strings that differ only in the case of some of their letters
      lower to the same string. */
  lemma LowerIgnoresCase(a: string, b: string)
    requires |a| == |b|
    requires forall i :: 0 <= i < |a| ==> a[i] == b[i] || CasePair(a[i], b[i])
    ensures Lower(a) == Lower(b)
  {
    forall i | 0 <= i < |a|
      ensures Lower(a)[i] == Lower(b)[i]
    {
      if CasePair(a[i], b[i]) && !('A' <= a[i] <= 'Z') {
        assert 'A' <= b[i] <= 'Z';
      }
    }
  }

  /** `sep.join(parts)`: the parts with one separator between neighbours. */
  function Join(parts: seq<string>, sep: char): (s: string)
    ensures |parts| == 0 ==> s == ""
    ensures |parts| == 1 ==> s == parts[0]
    ensures |parts| > 0 ==> |parts[0]| <= |s| && s[..|parts[0]|] == parts[0]
    ensures |parts| > 1 ==> |s| > |parts[0]| && s[|parts[0]|] == sep
  {
    if |parts| == 0 then ""
    else if |parts| == 1 then parts[0]
    else parts[0] + [sep] + Join(parts[1..], sep)
  }

  /** The test for the separator character. */
  function IsSep(sep: char): char -> bool {
    (c: char) => c == sep
  }

  /** `s.split(sep)`: the maximal separator-free pieces of `s`, in order.
      Like Python it returns one piece for a string without separators,
      including the empty string. */
  function Split(s: string, sep: char): (parts: seq<string>)
    ensures |parts| >= 1
    ensures forall k :: 0 <= k < |parts| ==> sep !in parts[k]
    decreases |s|
  {
    match FirstIndex(s, IsSep(sep))
    case None => [s]
    case Some(k) => [s[..k]] + Split(s[k + 1..], sep)
  }

  /** Splitting a join gives back the parts, provided there is at least one
      part and no part contains the separator. */
  lemma {:induction false} SplitJoin(parts: seq<string>, sep: char)
    requires |parts| > 0
    requires forall k :: 0 <= k < |parts| ==> sep !in parts[k]
    ensures Split(Join(parts, sep), sep) == parts
    decreases |parts|
  {
    if |parts| == 1 {
      SplitNoSep(parts[0], sep);
    } else {
      var more := parts[1..];
      assert forall k :: 0 <= k < |more| ==> sep !in more[k] by {
        assert forall k :: 0 <= k < |more| ==> more[k] == parts[k + 1];
      }
      SplitJoinStep(parts, sep);
      SplitJoin(more, sep);
      assert [parts[0]] + more == parts;
    }
  }

  /** Splitting a join of two or more parts splits off the first part. */
  lemma SplitJoinStep(parts: seq<string>, sep: char)
    requires |parts| > 1 && sep !in parts[0]
    ensures Split(Join(parts, sep), sep) == [parts[0]] + Split(Join(parts[1..], sep), sep)
  {
    var rest := Join(parts[1..], sep);
    assert Join(parts, sep) == parts[0] + [sep] + rest;
    SplitAtFirstSep(parts[0], rest, sep);
  }

  /** A string without the separator splits into itself. */
  lemma SplitNoSep(s: string, sep: char)
    requires sep !in s
    ensures Split(s, sep) == [s]
  {
    assert forall j :: 0 <= j < |s| ==> !IsSep(sep)(s[j]);
  }

  /** A separator-free head followed by the separator splits off first. */
  lemma SplitAtFirstSep(head: string, tail: string, sep: char)
    requires sep !in head
    ensures Split(head + [sep] + tail, sep) == [head] + Split(tail, sep)
  {
    var s := head + [sep] + tail;
    var n := |head|;
    assert s[n] == sep;
    assert forall j :: 0 <= j < n ==> s[j] == head[j];
    FirstIndexUnique(s, IsSep(sep), n);
    assert s[..n] == head;
    assert s[n + 1..] == tail;
  }

  /** Joining a split gives back the string. */
  lemma {:induction false} JoinSplit(s: string, sep: char)
    ensures Join(Split(s, sep), sep) == s
    decreases |s|
  {
    match FirstIndex(s, IsSep(sep))
    case None =>
    case Some(k) =>
      var tail := Split(s[k + 1..], sep);
      JoinSplit(s[k + 1..], sep);
      assert Split(s, sep) == [s[..k]] + tail;
      assert ([s[..k]] + tail)[1..] == tail;
      assert s == s[..k] + [sep] + s[k + 1..];
  }
}
