/** Searching, joining and splitting strings. */
module Text {
  import opened Wrappers

  /** The position of the first `c` in `s`, if any. */
  function IndexOf(s: string, c: char): (r: Option<nat>)
    ensures r.None? <==> c !in s
    ensures r.Some? ==> r.value < |s| && s[r.value] == c && c !in s[..r.value]
  {
    if |s| == 0 then None
    else if s[0] == c then Some(0)
    else
      match IndexOf(s[1..], c)
      case None => None
      case Some(i) =>
        assert s[..i + 1] == [s[0]] + s[1..][..i];
        Some(i + 1)
  }

  /** In a text without `c` followed by one starting with `c`, the first `c` is where the second begins. */
  lemma IndexOfAfter(head: string, tail: string, c: char)
    requires c !in head && |tail| > 0 && tail[0] == c
    ensures IndexOf(head + tail, c) == Some(|head|)
  {
    var s := head + tail;
    assert s[|head|] == c;
    var i := IndexOf(s, c).value;
    assert s[..|head|] == head;
    assert i >= |head|;
    assert i <= |head|;
  }

  /** `s` without the prefix `p`, if `s` starts with it. */
  function StripPrefix(s: string, p: string): (r: Option<string>)
    ensures r.Some? <==> |p| <= |s| && s[..|p|] == p
    ensures r.Some? ==> s == p + r.value
  {
    if |p| <= |s| && s[..|p|] == p then
      assert s == s[..|p|] + s[|p|..];
      Some(s[|p|..])
    else None
  }

  /** Stripping a prefix from text that starts with it leaves the rest. */
  lemma StripPrefixOfConcat(p: string, t: string)
    ensures StripPrefix(p + t, p) == Some(t)
  {
    assert (p + t)[..|p|] == p;
  }

  /** `sep.join(xs)`. */
  function Join(sep: string, xs: seq<string>): (r: string)
    ensures |xs| == 0 ==> r == ""
    ensures |xs| == 1 ==> r == xs[0]
    decreases |xs|
  {
    if |xs| == 0 then ""
    else if |xs| == 1 then xs[0]
    else xs[0] + sep + Join(sep, xs[1..])
  }

  /** The pieces of `s` between occurrences of `c`. */
  function Split(s: string, c: char): (r: seq<string>)
    ensures |r| > 0
    ensures forall k :: 0 <= k < |r| ==> c !in r[k]
    decreases |s|
  {
    match IndexOf(s, c)
    case None => [s]
    case Some(i) => [s[..i]] + Split(s[i + 1..], c)
  }

  /** Every text of `xs` with `p` in front. */
  function Led(p: string, xs: seq<string>): (r: seq<string>)
    ensures |r| == |xs| && forall k :: 0 <= k < |xs| ==> r[k] == p + xs[k]
    decreases |xs|
  {
    if |xs| == 0 then [] else [p + xs[0]] + Led(p, xs[1..])
  }

  /**
   * Splitting a join at the first character of its separator gives the parts
   * back, each after the first carrying the rest of the separator, provided no
   * part and no later character of the separator contains that character.
   * `lead` is text glued in front of the first part.
   */
  lemma {:induction false} SplitJoin(lead: string, sep: string, xs: seq<string>)
    requires |xs| > 0 && |sep| > 0 && sep[0] !in lead && sep[0] !in sep[1..]
    requires forall k :: 0 <= k < |xs| ==> sep[0] !in xs[k]
    ensures Split(lead + Join(sep, xs), sep[0]) == [lead + xs[0]] + Led(sep[1..], xs[1..])
    decreases |xs|
  {
    if |xs| == 1 {
      assert sep[0] !in lead + xs[0];
    } else {
      SplitJoinFirst(lead, sep, xs);
      SplitJoin(sep[1..], sep, xs[1..]);
      assert xs[1..][1..] == xs[2..];
    }
  }

  /** Splitting at the first character of a separator that follows text free of it keeps that text as the first piece. */
  lemma SplitAfter(head: string, sep: string, rest: string)
    requires |sep| > 0 && sep[0] !in head
    ensures Split(head + (sep + rest), sep[0]) == [head] + Split(sep[1..] + rest, sep[0])
  {
    var s := head + (sep + rest);
    IndexOfAfter(head, sep + rest, sep[0]);
    assert s[..|head|] == head;
    assert s[|head| + 1..] == sep[1..] + rest;
  }

  /** A join of two or more parts is the first part, the separator, and the join of the rest. */
  lemma JoinCons(sep: string, xs: seq<string>)
    requires |xs| > 1
    ensures Join(sep, xs) == xs[0] + (sep + Join(sep, xs[1..]))
  {
  }

  /** One step of `SplitJoin`: the first piece is the lead and the first part, the rest splits on. */
  lemma SplitJoinFirst(lead: string, sep: string, xs: seq<string>)
    requires |xs| > 1 && |sep| > 0 && sep[0] !in lead && sep[0] !in xs[0]
    ensures Split(lead + Join(sep, xs), sep[0]) == [lead + xs[0]] + Split(sep[1..] + Join(sep, xs[1..]), sep[0])
  {
    var rest := Join(sep, xs[1..]);
    JoinCons(sep, xs);
    assert lead + Join(sep, xs) == (lead + xs[0]) + (sep + rest);
    SplitAfter(lead + xs[0], sep, rest);
  }

  /** The comma-space list `str.join` builds for the dialog splits back, at its commas, into its items. */
  lemma CommaListSplits(xs: seq<string>)
    requires |xs| > 0 && forall k :: 0 <= k < |xs| ==> ',' !in xs[k]
    ensures Split(Join(", ", xs), ',') == [xs[0]] + Led(" ", xs[1..])
  {
    var sep := ", ";
    assert sep[0] == ',' && sep[1..] == " ";
    SplitJoin("", sep, xs);
    assert "" + Join(sep, xs) == Join(sep, xs);
    assert "" + xs[0] == xs[0];
  }
}
