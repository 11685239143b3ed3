/**
 * The Python string operations the checker relies on, str.split with a
 * one-character separator and str.join, together with Find, the
 * first-occurrence search Split is built on (it has str.find's meaning;
 * the checker itself does not call str.find).
 */
module PyStr {
  import opened Wrappers

  /** Position of the first occurrence of c in s, as str.find (None for -1). */
  function Find(s: string, c: char): (r: Option<nat>)
    ensures r.None? <==> c !in s
    ensures r.Some? ==> r.value < |s| && s[r.value] == c && c !in s[..r.value]
  {
    if s == [] then None
    else if s[0] == c then Some(0)
    else match Find(s[1..], c)
      case None => None
      case Some(i) =>
        assert s[..i + 1] == [s[0]] + s[1..][..i];
        Some(i + 1)
  }

  /** The first occurrence is unique: any position before which c does not occur is it. */
  lemma FindUnique(s: string, c: char, i: nat)
    requires i < |s| && s[i] == c && c !in s[..i]
    ensures Find(s, c) == Some(i)
  {
    assert s[i] in s;
  }

  /**
   * s.split(c) in Python: every single occurrence of c separates two
   * fields, so adjacent separators give empty fields and there is always
   * at least one field.
   */
  function Split(s: string, c: char): (parts: seq<string>)
    ensures |parts| >= 1
    ensures forall k :: 0 <= k < |parts| ==> c !in parts[k]
    decreases |s|
  {
    match Find(s, c)
    case None => [s]
    case Some(i) => [s[..i]] + Split(s[i + 1..], c)
  }

  /**
   * Python's str.join: the parts in order with sep between each two; the
   * result starts with the first part.
   */
  function Join(parts: seq<string>, sep: string): (s: string)
    ensures |parts| == 0 ==> s == ""
    ensures |parts| >= 1 ==> |parts[0]| <= |s| && s[..|parts[0]|] == parts[0]
  {
    if |parts| == 0 then ""
    else if |parts| == 1 then parts[0]
    else parts[0] + sep + Join(parts[1..], sep)
  }

  /** The number of characters in all the parts together. */
  function TotalLength(parts: seq<string>): nat
  {
    if parts == [] then 0 else |parts[0]| + TotalLength(parts[1..])
  }

  /** A join is as long as its parts together plus one separator fewer than there are parts. */
  lemma {:induction false} JoinLength(parts: seq<string>, sep: string)
    requires |parts| >= 1
    ensures |Join(parts, sep)| == TotalLength(parts) + (|parts| - 1) * |sep|
  {
    if |parts| > 1 {
      JoinLength(parts[1..], sep);
      assert (|parts| - 1) * |sep| == (|parts| - 2) * |sep| + |sep|;
    }
  }

  /** Joining a part in front of a non-empty list puts the separator between them. */
  lemma JoinCons(p: string, rest: seq<string>, sep: string)
    requires |rest| >= 1
    ensures Join([p] + rest, sep) == p + sep + Join(rest, sep)
  {
    assert ([p] + rest)[1..] == rest;
  }

  /**
   * s.split(c)[1] in Python: the field between the first and the second
   * occurrence of c, or up to the end of s when c occurs once. None where
   * Python raises IndexError, that is when c does not occur in s.
   */
  function SecondField(s: string, c: char): (r: Option<string>)
    ensures r.None? <==> c !in s
    ensures r.Some? ==> c !in r.value
    ensures r.Some? ==> forall k :: 0 <= k < |r.value| ==> r.value[k] in s
  {
    match Find(s, c)
    case None => None
    case Some(i) =>
      var rest := s[i + 1..];
      match Find(rest, c)
      case None => Some(rest)
      case Some(j) => Some(rest[..j])
  }

  /** A "<date> <time>" timestamp yields its time part. */
  lemma SecondFieldOfTimestamp(date: string, time: string)
    requires ' ' !in date && ' ' !in time
    ensures SecondField(date + " " + time, ' ') == Some(time)
  {
    var s := date + " " + time;
    assert s[..|date|] == date;
    FindUnique(s, ' ', |date|);
    assert s[|date| + 1..] == time;
  }

  /** SecondField is exactly indexing the result of Split at 1. */
  lemma SecondFieldIsSplitAtOne(s: string, c: char)
    ensures SecondField(s, c) == (if |Split(s, c)| >= 2 then Some(Split(s, c)[1]) else None)
  {
    match Find(s, c)
    case None =>
    case Some(i) =>
      var rest := s[i + 1..];
      assert Split(s, c) == [s[..i]] + Split(rest, c);
      match Find(rest, c)
      case None =>
        assert Split(rest, c) == [rest];
      case Some(j) =>
        assert Split(rest, c) == [rest[..j]] + Split(rest[j + 1..], c);
  }

  /** Joining the fields of a split with the separator gives back the string. */
  lemma {:induction false} JoinSplit(s: string, c: char)
    ensures Join(Split(s, c), [c]) == s
    decreases |s|
  {
    if c in s {
      var i := Find(s, c).value;
      var rest := s[i + 1..];
      var tail := Split(rest, c);
      assert Split(s, c) == [s[..i]] + tail;
      JoinSplit(rest, c);
      JoinCons(s[..i], tail, [c]);
      assert s[i..] == [c] + rest;
      assert s == s[..i] + s[i..];
    }
  }

  /** Splitting a string that starts with c-free text t only lengthens the first field. */
  lemma SplitPrefix(t: string, x: string, c: char)
    requires c !in t
    ensures Split(t + x, c) == [t + Split(x, c)[0]] + Split(x, c)[1..]
  {
    match Find(x, c)
    case None =>
      assert c !in t + x;
    case Some(i) =>
      assert (t + x)[..|t| + i] == t + x[..i];
      FindUnique(t + x, c, |t| + i);
      assert (t + x)[|t| + i + 1..] == x[i + 1..];
  }

  /**
   * Splitting parts joined by c followed by c-free text t recovers the
   * parts, each but the first prefixed by t. With t empty this is the
   * round trip of a join with a line break; with c = ',' and t = " " the
   * one of a join with a comma and a space.
   */
  lemma {:induction false} SplitJoin(parts: seq<string>, c: char, t: string)
    requires |parts| >= 1
    requires c !in t
    requires forall k :: 0 <= k < |parts| ==> c !in parts[k]
    ensures |Split(Join(parts, [c] + t), c)| == |parts|
    ensures Split(Join(parts, [c] + t), c)[0] == parts[0]
    ensures forall k :: 1 <= k < |parts| ==> Split(Join(parts, [c] + t), c)[k] == t + parts[k]
  {
    if |parts| > 1 {
      var p := parts[0];
      var more := Join(parts[1..], [c] + t);
      var s := Join(parts, [c] + t);
      JoinCons(p, parts[1..], [c] + t);
      assert parts == [p] + parts[1..];
      assert s == p + [c] + (t + more);
      assert s[..|p|] == p;
      FindUnique(s, c, |p|);
      assert s[|p| + 1..] == t + more;
      SplitJoin(parts[1..], c, t);
      SplitPrefix(t, more, c);
      var inner := Split(more, c);
      assert Split(s, c) == [p] + ([t + inner[0]] + inner[1..]);
    }
  }

  /** Appending one part to a non-empty list appends the separator and the part. */
  lemma {:induction false} JoinAppend(parts: seq<string>, last: string, sep: string)
    requires |parts| >= 1
    ensures Join(parts + [last], sep) == Join(parts, sep) + sep + last
  {
    if |parts| > 1 {
      assert (parts + [last])[1..] == parts[1..] + [last];
      JoinAppend(parts[1..], last, sep);
    }
  }
}
