/** The string helpers of the `transform` package: the rewrite of a leading
    "---" to "--" that runs over the command-line arguments before flag
    parsing, and the repeatable flag value that collects every occurrence of
    a flag in order. */
module Transform {
  import opened Wrappers

  /** Go's `strings.HasPrefix`. */
  predicate HasPrefix(s: string, prefix: string)
  {
    |prefix| <= |s| && s[..|prefix|] == prefix
  }

  /** `pat` occurs in `s` starting at index i. */
  predicate OccursAt(s: string, pat: string, i: nat)
  {
    i + |pat| <= |s| && s[i..i + |pat|] == pat
  }

  /** The first index at or after `from` where `pat` occurs in `s`, if any. */
  function IndexFrom(s: string, pat: string, from: nat): (r: Option<nat>)
    decreases |s| - from
    ensures r.Some? ==> from <= r.value && OccursAt(s, pat, r.value)
    ensures r.Some? ==> forall i :: from <= i < r.value ==> !OccursAt(s, pat, i)
    ensures r.None? ==> forall i :: from <= i ==> !OccursAt(s, pat, i)
  {
    if from + |pat| > |s| then None
    else if s[from..from + |pat|] == pat then Some(from)
    else IndexFrom(s, pat, from + 1)
  }

  /** Go's `strings.Replace(s, pat, repl, 1)` for a non-empty `pat`: the first
      occurrence of `pat` becomes `repl`; without one, `s` is returned as is. */
  function ReplaceFirst(s: string, pat: string, repl: string): (r: string)
    requires |pat| > 0
    ensures IndexFrom(s, pat, 0).None? ==> r == s
    ensures IndexFrom(s, pat, 0).Some? ==>
      var i := IndexFrom(s, pat, 0).value;
      |r| == |s| - |pat| + |repl| && r[..i] == s[..i]
      && r[i..i + |repl|] == repl && r[i + |repl|..] == s[i + |pat|..]
  {
    match IndexFrom(s, pat, 0)
    case None => s
    case Some(i) => s[..i] + repl + s[i + |pat|..]
  }

  /** A string that starts with `pat` has its first occurrence at index 0, so
      replacing it swaps that prefix for `repl`. */
  lemma {:induction false} ReplaceLeading(s: string, pat: string, repl: string)
    requires |pat| > 0 && HasPrefix(s, pat)
    ensures ReplaceFirst(s, pat, repl) == repl + s[|pat|..]
  {
    assert OccursAt(s, pat, 0);
    assert IndexFrom(s, pat, 0) == Some(0);
  }

  /** One argument as `normalizeFlags` rewrites it: a leading "---" becomes
      "--", every other argument is kept. */
  function NormalizeFlag(arg: string): (r: string)
    ensures HasPrefix(arg, "---") ==> r == "--" + arg[3..] && |r| == |arg| - 1 && HasPrefix(r, "--")
    ensures !HasPrefix(arg, "---") ==> r == arg
  {
    if HasPrefix(arg, "---") then
      ReplaceLeading(arg, "---", "--");
      ReplaceFirst(arg, "---", "--")
    else arg
  }

  /** Only one dash is removed: an argument with four leading dashes still
      starts with "---" afterwards, so the rewrite is not idempotent. */
  lemma {:induction false} OneDashRemoved()
    ensures NormalizeFlag("----x") == "---x"
    ensures NormalizeFlag(NormalizeFlag("----x")) == "--x"
  {
    assert HasPrefix("----x", "---");
    assert ("--" + "----x"[3..]) == "---x";
    assert HasPrefix("---x", "---");
    assert ("--" + "---x"[3..]) == "--x";
  }

  /** `normalizeFlags`: rewrites each argument in order into a new slice. */
  method NormalizeFlags(args: seq<string>) returns (normalized: seq<string>)
    ensures |normalized| == |args|
    ensures forall i :: 0 <= i < |args| ==> normalized[i] == NormalizeFlag(args[i])
    ensures forall i :: 0 <= i < |args| && !HasPrefix(args[i], "---") ==> normalized[i] == args[i]
    ensures forall i :: 0 <= i < |args| && HasPrefix(args[i], "---") ==>
      HasPrefix(normalized[i], "--") && |normalized[i]| == |args[i]| - 1
  {
    normalized := [];
    for k := 0 to |args|
      invariant |normalized| == k
      invariant forall i :: 0 <= i < k ==> normalized[i] == NormalizeFlag(args[i])
    {
      var arg := args[k];
      var result := arg;
      if HasPrefix(arg, "---") {
        result := ReplaceFirst(arg, "---", "--");
      }
      assert result == NormalizeFlag(args[k]);
      normalized := normalized + [result];
    }
  }

  /** `flagSlice`: a flag that may be given several times, keeping every value
      in the order given. */
  class FlagSlice {
    var values: seq<string>

    /** The zero value: no values yet. */
    constructor ()
      ensures values == []
    {
      values := [];
    }

    /** `String`, required by the flag package: always empty, whatever the values. */
    function String(): (s: string)
      reads this
      ensures |s| == 0
    {
      ""
    }

    /** `Set`: appends the value after all earlier ones and never fails. */
    method Set(value: string) returns (err: Option<string>)
      modifies this
      ensures values == old(values) + [value]
      ensures |values| == |old(values)| + 1 && values[|values| - 1] == value
      ensures forall i :: 0 <= i < |old(values)| ==> values[i] == old(values)[i]
      ensures err == None
    {
      values := values + [value];
      err := None;
    }
  }
}
