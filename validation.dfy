/**
 * The shape shared by the three validators: a fixed, ordered list of checks,
 * run one after the other, where the first check that fails decides the
 * error. A validator's table of checks is the declarative reference its
 * if-chain is proved against.
 */
module Validation {
  import opened Internal

  /** One guard of a validator: it fails when `violated`, reporting `error`. */
  datatype Check<E> = Check(violated: bool, error: E)

  /** Runs the checks in order and stops at the first that fails. */
  function FirstViolation<E>(checks: seq<Check<E>>): Option<E>
  {
    if checks == [] then None
    else if checks[0].violated then Some(checks[0].error)
    else FirstViolation(checks[1..])
  }

  /**
   * FirstViolation passes exactly when no check fails, and otherwise reports
   * the error of the earliest failing check.
   */
  lemma {:induction false} FirstViolationIsEarliest<E>(checks: seq<Check<E>>)
    ensures FirstViolation(checks) == None <==> forall i :: 0 <= i < |checks| ==> !checks[i].violated
    ensures FirstViolation(checks) != None ==>
      exists i :: 0 <= i < |checks| && checks[i].violated && FirstViolation(checks) == Some(checks[i].error)
        && forall j :: 0 <= j < i ==> !checks[j].violated
  {
    if checks != [] && !checks[0].violated {
      FirstViolationIsEarliest(checks[1..]);
      if FirstViolation(checks) != None {
        var i :| 0 <= i < |checks[1..]| && checks[1..][i].violated
          && FirstViolation(checks[1..]) == Some(checks[1..][i].error)
          && forall j :: 0 <= j < i ==> !checks[1..][j].violated;
        assert checks[i + 1].violated;
        assert forall j :: 0 <= j < i + 1 ==> !checks[j].violated by {
          forall j | 0 <= j < i + 1 ensures !checks[j].violated {
            if j > 0 { assert checks[j] == checks[1..][j - 1]; }
          }
        }
      }
      else {
        assert forall i :: 0 <= i < |checks| ==> !checks[i].violated by {
          forall i | 0 <= i < |checks| ensures !checks[i].violated {
            if i > 0 { assert checks[i] == checks[1..][i - 1]; }
          }
        }
      }
    }
    else if checks != [] {
      assert 0 <= 0 < |checks| && checks[0].violated;
    }
  }

  /** One step of FirstViolation taken at position `k` of the table. */
  lemma FirstViolationStep<E>(checks: seq<Check<E>>, k: int)
    requires 0 <= k < |checks|
    ensures FirstViolation(checks[k..]) ==
      if checks[k].violated then Some(checks[k].error) else FirstViolation(checks[k + 1..])
  {
  }
}
