/**
 * LLaMA2Chat: a per-query cache of generated "needs" texts beside the last
 * generated one (the counting methodology), and the dialog template that reads
 * it. The tokenizer, `generate` and decode chain is one function from query to
 * text.
 */
module Llama2Chat {
  import opened Wrappers
  import opened Text
  import Memo

  /** The two fields `discern_user_needs` updates. */
  datatype ChatState = ChatState(methodology: Option<string>, cache: map<string, string>)

  const InitialState := ChatState(None, map[])

  /**
   * `discern_user_needs` on a state: a cached query returns its stored text and
   * changes nothing (in particular not the methodology); a new query stores the
   * generated text under the query and makes it the methodology.
   */
  function Discern(s: ChatState, query: string, generate: string -> string): (r: (ChatState, string))
    ensures (r.0.cache, r.1) == Memo.Step(s.cache, query, generate(query))
    ensures query in s.cache ==> r.0.methodology == s.methodology
    ensures query !in s.cache ==> r.0.methodology == Some(generate(query))
  {
    if query in s.cache then (s, s.cache[query])
    else
      var needs := generate(query);
      (ChatState(Some(needs), s.cache[query := needs]), needs)
  }

  /** Asking the same query again returns the same text and leaves the state as it was. */
  lemma DiscernTwice(s: ChatState, query: string, generate: string -> string)
    ensures var (s1, n1) := Discern(s, query, generate);
      var (s2, n2) := Discern(s1, query, generate);
      n2 == n1 && s2 == s1
  {
  }

  /** A run of queries: the state after them and the text each returned. */
  function Session(s: ChatState, queries: seq<string>, generate: string -> string): (r: (ChatState, seq<string>))
    ensures |r.1| == |queries|
    decreases |queries|
  {
    if |queries| == 0 then (s, [])
    else
      var (s1, n) := Discern(s, queries[0], generate);
      var (s2, ns) := Session(s1, queries[1..], generate);
      (s2, [n] + ns)
  }

  /** The calls a session makes on its cache, each with the text generation would give. */
  function CacheCalls(queries: seq<string>, generate: string -> string): (calls: seq<(string, string)>)
    ensures |calls| == |queries|
    ensures forall k :: 0 <= k < |queries| ==> calls[k] == (queries[k], generate(queries[k]))
  {
    seq(|queries|, k requires 0 <= k < |queries| => (queries[k], generate(queries[k])))
  }

  /** The cache of a session evolves exactly as the memoisation replay of its queries. */
  lemma {:induction false} SessionIsReplay(s: ChatState, queries: seq<string>, generate: string -> string)
    ensures Session(s, queries, generate).0.cache == Memo.Replay(s.cache, CacheCalls(queries, generate)).0
    ensures Session(s, queries, generate).1 == Memo.Replay(s.cache, CacheCalls(queries, generate)).1
    decreases |queries|
  {
    if |queries| > 0 {
      var (s1, n) := Discern(s, queries[0], generate);
      SessionIsReplay(s1, queries[1..], generate);
      assert CacheCalls(queries, generate)[1..] == CacheCalls(queries[1..], generate);
    }
  }

  /** Within a session the same query always returns the same text, and cache entries are never replaced. */
  lemma SessionConsistent(s: ChatState, queries: seq<string>, generate: string -> string)
    ensures forall i, j :: 0 <= i < |queries| && 0 <= j < |queries| && queries[i] == queries[j] ==>
      Session(s, queries, generate).1[i] == Session(s, queries, generate).1[j]
    ensures forall q :: q in s.cache ==> q in Session(s, queries, generate).0.cache && Session(s, queries, generate).0.cache[q] == s.cache[q]
  {
    SessionIsReplay(s, queries, generate);
    Memo.ReplayAnswersFromFinalCache(s.cache, CacheCalls(queries, generate));
    Memo.ReplayKeepsEntries(s.cache, CacheCalls(queries, generate));
  }

  /** A session of already-cached queries leaves the methodology as it was. */
  lemma {:induction false} CachedSessionKeepsMethodology(s: ChatState, queries: seq<string>, generate: string -> string)
    requires forall k :: 0 <= k < |queries| ==> queries[k] in s.cache
    ensures Session(s, queries, generate).0 == s
    decreases |queries|
  {
    if |queries| > 0 {
      CachedSessionKeepsMethodology(s, queries[1..], generate);
    }
  }

  /**
   * The methodology is the text of the last NEW query, not of the last query:
   * after asking a, then b, then a again, the dialog would use b's text
   * although a was asked last.
   */
  lemma MethodologyFollowsLastMiss(a: string, b: string, generate: string -> string)
    requires a != b
    ensures var (s, answers) := Session(InitialState, [a, b, a], generate);
      answers == [generate(a), generate(b), generate(a)] && s.methodology == Some(generate(b))
  {
    var (s1, n1) := Discern(InitialState, a, generate);
    var (s2, n2) := Discern(s1, b, generate);
    var (s3, n3) := Discern(s2, a, generate);
    assert [a, b, a][1..] == [b, a];
    assert [b, a][1..] == [a];
    assert [a][1..] == [];
    assert Session(s3, [], generate) == (s3, []);
    assert [n3] + [] == [n3];
    assert Session(s2, [a], generate) == (s3, [n3]);
    assert [n2] + [n3] == [n2, n3];
    assert Session(s1, [b, a], generate) == (s3, [n2, n3]);
    assert [n1] + [n2, n3] == [n1, n2, n3];
  }

  /** An element of `image_features`: a Python float, or anything else (shown by its `repr`). */
  datatype Feature = Float(x: real) | NotFloat(repr: string)

  /** What `construct_dialog` returns: the prompt string, or a dict with an "error" entry. */
  datatype Dialog = Prompt(text: string) | ErrorDict(error: string)

  const FloatsError := "image_features must be a list of floats"
  const PromptStart := "Please focus on "
  const PromptMiddle := ". The image features are as follows: "

  /** `str()` of the methodology field: its text, or "None" before any query. */
  function MethodologyText(m: Option<string>): (t: string)
    ensures m.Some? ==> t == m.value
    ensures m.None? ==> t == "None"
  {
    if m.Some? then m.value else "None"
  }

  /** The texts `map(str, image_features)` yields for a list of floats, with `str(float)` given as `show`. */
  function Shown(features: seq<Feature>, show: real -> string): (r: seq<string>)
    requires forall k :: 0 <= k < |features| ==> features[k].Float?
    ensures |r| == |features| && forall k :: 0 <= k < |features| ==> r[k] == show(features[k].x)
  {
    seq(|features|, k requires 0 <= k < |features| => show(features[k].x))
  }

  class LLaMA2Chat {
    var countingMethodology: Option<string>
    var cache: map<string, string>
    /** Tokenise, generate and decode, as one function of the query. */
    const generate: string -> string

    /** Loading the tokenizer and the model is not modelled; both fields start empty. */
    constructor (generate: string -> string)
      ensures countingMethodology == None && cache == map[] && this.generate == generate
    {
      this.generate := generate;
      countingMethodology := None;
      cache := map[];
    }

    function State(): ChatState
      reads this
    {
      ChatState(countingMethodology, cache)
    }

    /** `discern_user_needs(user_query)`: one step of the session model. */
    method DiscernUserNeeds(userQuery: string) returns (needs: string)
      modifies this
      ensures (State(), needs) == Discern(old(State()), userQuery, generate)
    {
      if userQuery in cache {
        return cache[userQuery];
      }
      needs := generate(userQuery);
      cache := cache[userQuery := needs];
      countingMethodology := Some(needs);
    }

    /**
     * `construct_dialog(image_features)`: the error dict when some element is
     * not a float (an empty list passes), otherwise the prompt naming the
     * methodology and listing the features joined by ", ".
     */
    function ConstructDialog(imageFeatures: seq<Feature>, show: real -> string): (d: Dialog)
      reads this
      ensures d.ErrorDict? <==> exists k :: 0 <= k < |imageFeatures| && imageFeatures[k].NotFloat?
      ensures d.ErrorDict? ==> d.error == FloatsError
      ensures d.Prompt? ==>
        d.text == PromptStart + MethodologyText(countingMethodology) + PromptMiddle + Join(", ", Shown(imageFeatures, show)) + "."
      ensures d.Prompt? ==>
        var list := Join(", ", Shown(imageFeatures, show));
        var m := |PromptStart| + |MethodologyText(countingMethodology)|;
        && |d.text| == m + |PromptMiddle| + |list| + 1
        && d.text[..|PromptStart|] == PromptStart
        && d.text[|PromptStart|..m] == MethodologyText(countingMethodology)
        && d.text[m..m + |PromptMiddle|] == PromptMiddle
        && d.text[|d.text| - |list| - 1..|d.text| - 1] == list
        && d.text[|d.text| - 1] == '.'
    {
      if exists k :: 0 <= k < |imageFeatures| && imageFeatures[k].NotFloat? then ErrorDict(FloatsError)
      else
        var featureList := Join(", ", Shown(imageFeatures, show));
        TemplateParts(PromptStart, MethodologyText(countingMethodology), PromptMiddle, featureList);
        Prompt(PromptStart + MethodologyText(countingMethodology) + PromptMiddle + featureList + ".")
    }
  }

  /** Where each part of the filled dialog template lies in the prompt. */
  lemma TemplateParts(start: string, methodology: string, middle: string, list: string)
    ensures var t := start + methodology + middle + list + ".";
      && |t| == |start| + |methodology| + |middle| + |list| + 1
      && t[..|start|] == start
      && t[|start|..|start| + |methodology|] == methodology
      && t[|start| + |methodology|..|start| + |methodology| + |middle|] == middle
      && t[|t| - |list| - 1..|t| - 1] == list
      && t[|t| - 1] == '.'
  {
    var t := start + methodology + middle + list + ".";
    assert t == start + methodology + (middle + list + ".");
    assert t == (start + methodology + middle) + list + ".";
    assert t == (start + methodology) + middle + (list + ".");
  }

  /**
   * The feature list of a prompt splits back, at its commas, into the shown
   * features (each after the first led by a space) whenever `str(float)`
   * never produces a comma.
   */
  lemma FeatureListRecoverable(features: seq<Feature>, show: real -> string)
    requires |features| > 0 && forall k :: 0 <= k < |features| ==> features[k].Float?
    requires forall x :: ',' !in show(x)
    ensures var shown := Shown(features, show);
      Split(Join(", ", shown), ',') == [shown[0]] + Led(" ", shown[1..])
  {
    CommaListSplits(Shown(features, show));
  }
}
