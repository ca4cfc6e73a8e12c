/**
 * The backend's Utility class: an error-message formatter, a memoising call
 * wrapper keyed by the function's name and the text of its arguments, and a
 * string validator that checks a list of predicates.
 */
module BackendUtility {
  import opened Wrappers
  import opened Text
  import Memo

  /** An exception as the formatter sees it: its class name and `str()` of it. */
  datatype PyException = PyException(typeName: string, details: string)

  const ErrorPrefix := "An error of type "
  const ErrorMiddle := " occurred. Details: "

  /** `detailed_error_handling`: the class name and the details, in a fixed sentence. */
  function DetailedErrorHandling(e: PyException): (m: string)
    ensures |m| == |ErrorPrefix| + |e.typeName| + |ErrorMiddle| + |e.details|
    ensures m[..|ErrorPrefix|] == ErrorPrefix && m[|m| - |e.details|..] == e.details
  {
    ErrorPrefix + e.typeName + ErrorMiddle + e.details
  }

  /**
   * Reads `prefix + name + middle + details` back, the name running up to the
   * first space after the prefix.
   */
  function ParseSentence(m: string, prefix: string, middle: string): (r: Option<(string, string)>)
    ensures r.Some? ==> m == prefix + r.value.0 + middle + r.value.1
  {
    match StripPrefix(m, prefix)
    case None => None
    case Some(rest) =>
      match IndexOf(rest, ' ')
      case None => None
      case Some(i) =>
        match StripPrefix(rest[i..], middle)
        case None => None
        case Some(details) =>
          Reassemble(m, prefix, rest, i, middle, details);
          Some((rest[..i], details))
  }

  lemma Reassemble(m: string, prefix: string, rest: string, i: nat, middle: string, details: string)
    requires m == prefix + rest && i <= |rest| && rest[i..] == middle + details
    ensures m == prefix + rest[..i] + middle + details
  {
    assert rest == rest[..i] + rest[i..];
  }

  /** A name without spaces, followed by a middle starting with a space, is read back exactly. */
  lemma ParseSentenceRoundTrip(prefix: string, name: string, middle: string, details: string)
    requires ' ' !in name && |middle| > 0 && middle[0] == ' '
    ensures ParseSentence(prefix + name + middle + details, prefix, middle) == Some((name, details))
  {
    var tail := middle + details;
    assert prefix + name + middle + details == prefix + (name + tail);
    StripPrefixOfConcat(prefix, name + tail);
    IndexOfAfter(name, tail, ' ');
    assert (name + tail)[..|name|] == name && (name + tail)[|name|..] == tail;
    StripPrefixOfConcat(middle, details);
  }

  /** Reads a message of `detailed_error_handling` back into the exception it describes. */
  function ParseErrorMessage(m: string): (r: Option<PyException>)
    ensures r.Some? ==> DetailedErrorHandling(r.value) == m
  {
    match ParseSentence(m, ErrorPrefix, ErrorMiddle)
    case None => None
    case Some((name, details)) => Some(PyException(name, details))
  }

  /**
   * For a class name without spaces (every Python class name) the message
   * determines the exception: formatting then reading back gives it again.
   */
  lemma ErrorMessageRoundTrip(e: PyException)
    requires ' ' !in e.typeName
    ensures ParseErrorMessage(DetailedErrorHandling(e)) == Some(e)
  {
    ParseSentenceRoundTrip(ErrorPrefix, e.typeName, ErrorMiddle, e.details);
  }

  /** The cache key: the function's name followed by the text of its positional and keyword arguments. */
  function CacheKey(name: string, argsText: string, kwargsText: string): (k: string)
    ensures |k| == |name| + |argsText| + |kwargsText|
    ensures k[..|name|] == name && k[|name|..|name| + |argsText|] == argsText && k[|name| + |argsText|..] == kwargsText
  {
    name + argsText + kwargsText
  }

  /**
   * The key does not depend on which function is called, only on its name:
   * two calls of different functions with the same name and argument text share
   * an entry.
   */
  lemma SameNameSameKey<A, W, V>(f: (A, W) -> V, g: (A, W) -> V, name: string, args: A, kwargs: W,
                                 showArgs: A -> string, showKwargs: W -> string)
    ensures var key := CacheKey(name, showArgs(args), showKwargs(kwargs));
      var (c1, v1) := Memo.Step(map[], key, f(args, kwargs));
      var (c2, v2) := Memo.Step(c1, key, g(args, kwargs));
      v2 == v1 == f(args, kwargs) && c2 == c1
  {
  }

  /** `validate_string`: true exactly when every condition holds on the input (so true for no conditions). */
  function ValidateString(input: string, conditions: seq<string -> bool>): (ok: bool)
    ensures ok <==> forall k :: 0 <= k < |conditions| ==> conditions[k](input)
  {
    if |conditions| == 0 then true
    else conditions[0](input) && ValidateString(input, conditions[1..])
  }

  /** Validating against two lists at once is validating against each. */
  lemma ValidateConcat(input: string, a: seq<string -> bool>, b: seq<string -> bool>)
    ensures ValidateString(input, a + b) == (ValidateString(input, a) && ValidateString(input, b))
  {
    assert forall k :: 0 <= k < |a| ==> (a + b)[k] == a[k];
    assert forall k :: 0 <= k < |b| ==> (a + b)[|a| + k] == b[k];
  }

  class Utility<V> {
    /** Stored results by key. */
    var cache: map<string, V>
    /** How many times a wrapped function has actually been run. */
    ghost var runs: nat

    constructor ()
      ensures cache == map[] && runs == 0
    {
      cache := map[];
      runs := 0;
    }

    /**
     * `cache_function_output(function, *args, **kwargs)`. The text of the
     * arguments is `str()` of them, given here as the two `show` functions.
     * A hit returns the stored value without running `fn`; a miss runs it
     * once, stores the result under the key and returns it.
     */
    method CacheFunctionOutput<A, W>(name: string, fn: (A, W) -> V, args: A, kwargs: W,
                                     showArgs: A -> string, showKwargs: W -> string) returns (r: V)
      modifies this
      ensures var key := CacheKey(name, showArgs(args), showKwargs(kwargs));
        (cache, r) == Memo.Step(old(cache), key, fn(args, kwargs))
        && runs == old(runs) + (if key in old(cache) then 0 else 1)
    {
      var key := name + showArgs(args) + showKwargs(kwargs);
      if key in cache {
        return cache[key];
      } else {
        var result := fn(args, kwargs);
        runs := runs + 1;
        cache := cache[key := result];
        return result;
      }
    }
  }
}
