/**
 * `SR`, a result that is either a success carrying a value or an error
 * carrying an error value, and `SE`, an error record with a message, an
 * optional code and a context mapping.
 */
module SimpleReturns {
  import opened Wrappers

  /**
   * A result. `value` and `errorValue` are the properties of the same names;
   * the one not populated is `None`.
   */
  datatype SR<S, E> = SR(isSuccess: bool, value: Option<S>, errorValue: Option<E>)
  {
    /** `is_error`: the negation of `is_success`. */
    function IsError(): (b: bool)
    {
      !isSuccess
    }
  }

  /** `SR.success(v)`. */
  function Success<S, E>(v: S): (r: SR<S, E>)
    ensures r.isSuccess && !r.IsError()
    ensures r.value == Some(v) && r.errorValue == None
  {
    SR(true, Some(v), None)
  }

  /** `SR.error(e)`. */
  function Error<S, E>(e: E): (r: SR<S, E>)
    ensures r.IsError() && !r.isSuccess
    ensures r.errorValue == Some(e) && r.value == None
  {
    SR(false, None, Some(e))
  }

  /** The two constructors never produce the same result, and each can be read back. */
  lemma SuccessErrorDistinct<S, E>(v: S, e: E)
    ensures Success<S, E>(v) != Error<S, E>(e)
    ensures Success<S, E>(v).value.value == v && Error<S, E>(e).errorValue.value == e
  {
    assert Success<S, E>(v).isSuccess;
  }

  /**
   * For a result built by `success` or `error`, the populated side agrees with
   * `is_error`: the error value is present exactly for an error, and the value
   * exactly for a success.
   */
  lemma FilledSideAgrees<S, E>(r: SR<S, E>, v: S, e: E)
    requires r == Success(v) || r == Error(e)
    ensures r.IsError() <==> r.errorValue.Some?
    ensures !r.IsError() <==> r.value.Some?
    ensures r.IsError() ==> r.errorValue == Some(e) && r.value == None
    ensures !r.IsError() ==> r.value == Some(v) && r.errorValue == None
  {
    if r == Success(v) {
      assert !r.IsError();
    } else {
      assert r.IsError();
    }
  }

  /** An error record; context values are of any type `V`, keyed by name. */
  datatype SE<V> = SE(message: string, code: Option<string>, context: map<string, V>)

  /** `SE(message, code, context)`: `context or {}` keeps a non-empty mapping and otherwise gives `{}`. */
  function NewSE<V>(message: string, code: Option<string>, context: Option<map<string, V>>): (e: SE<V>)
    ensures e.message == message && e.code == code
    ensures e.context == (if context.Some? then context.value else map[])
  {
    SE(message, code, if context.Some? && |context.value| > 0 then context.value else map[])
  }

  /** Whether `if self.code:` holds: a code is present and is not the empty string. */
  predicate HasCode<V>(e: SE<V>)
  {
    e.code.Some? && e.code.value != ""
  }

  /** `str(e)`. */
  function Display<V>(e: SE<V>): (s: string)
    ensures |s| == |e.message| + (if HasCode(e) then |e.code.value| + 3 else 0)
  {
    if HasCode(e) then "[" + e.code.value + "] " + e.message else e.message
  }

  /**
   * The display always ends with the message, and differs from the bare
   * message exactly when a non-empty code is present.
   */
  lemma DisplayShowsCodeExactlyWhenPresent<V>(e: SE<V>)
    ensures |Display(e)| >= |e.message|
    ensures Display(e)[|Display(e)| - |e.message|..] == e.message
    ensures Display(e) == e.message <==> !HasCode(e)
    ensures HasCode(e) ==>
      var c := e.code.value;
      Display(e)[0] == '[' && Display(e)[1..|c| + 1] == c && Display(e)[|c| + 1..|c| + 3] == "] "
  {
    var s := Display(e);
    if HasCode(e) {
      assert |s| == |e.code.value| + 3 + |e.message|;
      assert s[|s| - |e.message|..] == e.message;
    }
  }

  /** The displayed forms the test suite expects. */
  lemma DisplayExamples()
    ensures Display(NewSE<int>("Test error", Some("E001"), None)) == "[E001] Test error"
    ensures Display(NewSE<int>("Simple error", None, None)) == "Simple error"
    ensures Display(NewSE<int>("bad input", Some(""), None)) == "bad input"
  {
    assert HasCode(NewSE<int>("Test error", Some("E001"), None));
  }

  /** An `SE` given to `SR.error` comes back from `error_value` with message and code intact. */
  lemma ErrorCarriesSE<S, V>(message: string, code: Option<string>, context: Option<map<string, V>>)
    ensures var e := NewSE(message, code, context);
      var r := Error<S, SE<V>>(e);
      r.IsError() && r.errorValue == Some(e)
      && r.errorValue.value.message == message && r.errorValue.value.code == code
  {
  }
}
