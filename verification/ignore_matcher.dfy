/** The ignore list: a process name is ignored when one of the configured
    patterns matches it. Patterns are tried in list order and the first one
    that matches, or fails to compile, decides the answer. */
module IgnoreMatcher {
  import opened Outcomes

  /** What one call of the regular-expression matcher can report. */
  datatype MatchOutcome = Matched | NotMatched | PatternFailed(error: Error)

  /** The regular-expression engine, `regexp.Match(pattern, name)`, as an
      opaque total function of the pattern and the process name. */
  type Matcher = (string, string) -> MatchOutcome

  /** The first `k` patterns all report NotMatched for `name`, so the walk
      over the list reaches pattern `k`. */
  predicate PassedOver(m: Matcher, ignores: seq<string>, name: string, k: nat)
    requires k <= |ignores|
  {
    forall j :: 0 <= j < k ==> m(ignores[j], name) == NotMatched
  }

  /** The answer a decisive (match or failure) outcome produces. */
  function Decision(o: MatchOutcome): Result<bool>
    requires !o.NotMatched?
  {
    match o
    case Matched => Ok(true)
    case PatternFailed(e) => Err(e)
  }

  /** Whether `name` is one of the processes to ignore. */
  function IsIgnoredProcessName(m: Matcher, ignores: seq<string>, name: string): (r: Result<bool>)
    ensures r == Ok(false) <==> PassedOver(m, ignores, name, |ignores|)
    ensures forall i :: 0 <= i < |ignores| && PassedOver(m, ignores, name, i) && m(ignores[i], name) != NotMatched ==>
                          r == Decision(m(ignores[i], name))
    ensures r.Err? ==> exists i :: 0 <= i < |ignores| && PassedOver(m, ignores, name, i) && m(ignores[i], name) == PatternFailed(r.error)
  {
    if |ignores| == 0 then Ok(false)
    else
      match m(ignores[0], name)
      case PatternFailed(e) => Err(e)
      case Matched => Ok(true)
      case NotMatched =>
        var rest := IsIgnoredProcessName(m, ignores[1..], name);
        assert forall i :: 1 <= i <= |ignores| && PassedOver(m, ignores, name, i) ==> PassedOver(m, ignores[1..], name, i - 1);
        assert forall i :: 0 <= i < |ignores| - 1 && PassedOver(m, ignores[1..], name, i) ==> PassedOver(m, ignores, name, i + 1);
        rest
  }

  /** When no pattern fails to compile, a name is ignored exactly when some
      pattern matches it; an empty list ignores nothing. */
  lemma {:induction false} IgnoredIffSomePatternMatches(m: Matcher, ignores: seq<string>, name: string)
    requires forall i :: 0 <= i < |ignores| ==> !m(ignores[i], name).PatternFailed?
    ensures IsIgnoredProcessName(m, ignores, name) == Ok(exists i :: 0 <= i < |ignores| && m(ignores[i], name) == Matched)
  {
    if |ignores| > 0 && m(ignores[0], name) == NotMatched {
      IgnoredIffSomePatternMatches(m, ignores[1..], name);
      if exists i :: 0 <= i < |ignores| && m(ignores[i], name) == Matched {
        var i :| 0 <= i < |ignores| && m(ignores[i], name) == Matched;
        assert ignores[1..][i - 1] == ignores[i];
      }
    }
  }

  /** Patterns after the deciding one are never evaluated: appending patterns
      changes the answer only when the original list matched nothing, and then
      the answer is that of the appended patterns alone. */
  lemma {:induction false} AppendPatterns(m: Matcher, a: seq<string>, b: seq<string>, name: string)
    ensures var ra := IsIgnoredProcessName(m, a, name);
            IsIgnoredProcessName(m, a + b, name) == if ra == Ok(false) then IsIgnoredProcessName(m, b, name) else ra
  {
    if |a| == 0 {
      assert a + b == b;
    } else {
      assert (a + b)[0] == a[0];
      assert (a + b)[1..] == a[1..] + b;
      AppendPatterns(m, a[1..], b, name);
    }
  }
}
