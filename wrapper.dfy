/**
 The earlier wrapper: `*wrapError` pairs a message with the error it wraps.
 It renders as "msg: cause" whatever the message, and unwraps to the wrapped
 error. The call-site frame the wrapper records is not modelled.
 */
module Wrapper {
  import opened Optional
  import Errs

  /** `%T` of the wrapper. */
  const WrapTypeName: string := "*errs.wrapError"

  /** A non-nil `*wrapError`. */
  datatype WrapError = WrapError(msg: string, cause: Errs.Err)

  /** Wrap: nil for a nil error; otherwise a wrapper around it. */
  function Wrap(err: Errs.Err, msg: string): Option<WrapError> {
    if err == Errs.Nil then None else Some(WrapError(msg, err))
  }

  /**
   Wrapf: the same as Wrap, with the message produced by the host formatter
   from the format and its arguments; that text is the parameter here.
   */
  function Wrapf(err: Errs.Err, formatted: string): Option<WrapError> {
    if err == Errs.Nil then None else Some(WrapError(formatted, err))
  }

  /** (*wrapError).Error: `%v: %v` of the message and the wrapped error. */
  function Error(we: WrapError): string {
    we.msg + ": " + Errs.Text(we.cause)
  }

  /** (*wrapError).Unwrap. */
  function Unwrap(we: WrapError): Errs.Err {
    we.cause
  }

  /** The wrapper seen as an `error` value among the others. */
  function AsErr(we: WrapError, id: nat): (r: Errs.Err)
    ensures Errs.Text(r) == Error(we)
    ensures Errs.Unwrap(r) == Unwrap(we)
    ensures Errs.TypeName(r) == WrapTypeName
  {
    Errs.Foreign(id, WrapTypeName, Error(we), false, we.cause)
  }

  /**
   Wrap and Wrapf give nil exactly for a nil error; otherwise the wrapper
   keeps the message as given and unwraps to the error it was given, which is
   not nil.
   */
  lemma WrapRoundTrip(err: Errs.Err, msg: string)
    ensures Wrap(err, msg).None? <==> err == Errs.Nil
    ensures Wrapf(err, msg).None? <==> err == Errs.Nil
    ensures Wrap(err, msg).Some? ==>
              && Wrap(err, msg).value.msg == msg
              && Unwrap(Wrap(err, msg).value) == err
              && Unwrap(Wrap(err, msg).value) != Errs.Nil
    ensures Wrap(err, msg) == Wrapf(err, msg)
  {
  }

  /**
   Unlike (*Error).Error, the wrapper has no special case for an empty
   message: it still writes the separator, while an *Error with an empty
   message reads as its cause alone.
   */
  lemma EmptyMessageDiffers(cause: Errs.Err, id: nat, context: map<string, string>)
    requires cause != Errs.Nil
    ensures Error(WrapError("", cause)) == ": " + Errs.Text(cause)
    ensures Errs.Text(Errs.Node(id, "", cause, context)) == Errs.Text(cause)
    ensures Error(WrapError("", cause)) != Errs.Text(Errs.Node(id, "", cause, context))
  {
    var t := Errs.Text(cause);
    assert |": " + t| == |t| + 2;
  }

  /**
   With a non-empty message the two variants read the same: "msg: cause".
   */
  lemma NonEmptyMessageAgrees(msg: string, cause: Errs.Err, id: nat, context: map<string, string>)
    requires |msg| > 0 && cause != Errs.Nil
    ensures Error(WrapError(msg, cause)) == Errs.Text(Errs.Node(id, msg, cause, context))
  {
  }

  /**
   errs.Cause walks through a wrapper: the root cause of a wrapper is the root
   cause of what it wraps, and the chain is the wrapper followed by the
   wrapped error's chain.
   */
  lemma CauseThroughWrapper(we: WrapError, id: nat)
    requires we.cause != Errs.Nil
    ensures Errs.Root(AsErr(we, id)) == Errs.Root(we.cause)
    ensures Errs.Chain(AsErr(we, id)) == [AsErr(we, id)] + Errs.Chain(we.cause)
  {
  }
}
