/** Failure values shared by every part of the assembler model. Each error
    stands for an exception the assembler raises and does not recover from. */
module Errors {

  /** Why an assembly step failed. */
  datatype Error =
    | InvalidOperand(token: seq<char>)     // an operand token matches no addressing form
    | UnknownOpcode(name: seq<char>)       // a mnemonic missing from the command table
    | UnknownDirective(name: seq<char>)    // a directive the pseudo-op handler has no case for
    | UndefinedLabel(name: seq<char>)      // a branch target that is not a label
    | BadLiteral(text: seq<char>)          // text that `int()` or `ord()` rejects
    | OutOfRange(value: int)               // a value too wide for its bit field
    | BadRegister(text: seq<char>)         // a register text the register decoder rejects
    | MissingArgument                      // an argument list shorter than the command needs
    | NoArgumentList                       // a parsed record without an argument list at all
    | UnterminatedString                   // a string directive without a closing delimiter
    | NoSuchBlock(address: int)            // the current object block has no byte list

  datatype Option<+T> = None | Some(value: T)

  datatype Result<+T> = Ok(value: T) | Err(error: Error) {
    predicate IsFailure() { Err? }

    function PropagateFailure<U>(): Result<U>
      requires Err?
    {
      Err(error)
    }

    function Extract(): T
      requires Ok?
    {
      value
    }
  }

  /** Applies `f` to each element in order, failing when any element fails:
      the loops of the original that raise on the first bad element. */
  function Collect<T, U>(f: T -> Result<U>, xs: seq<T>): (r: Result<seq<U>>)
    ensures r.Ok? ==> |r.value| == |xs| && forall i :: 0 <= i < |xs| ==> f(xs[i]) == Ok(r.value[i])
    ensures r.Err? <==> exists i :: 0 <= i < |xs| && f(xs[i]).Err?
  {
    if xs == [] then Ok([])
    else
      var init := xs[..|xs| - 1];
      assert forall i :: 0 <= i < |init| ==> init[i] == xs[i];
      match Collect(f, init)
      case Err(e) => Err(e)
      case Ok(done) =>
        match f(xs[|xs| - 1])
        case Err(e) => Err(e)
        case Ok(y) => Ok(done + [y])
  }

  /** The first failing element decides the error: once a prefix fails,
      the whole sequence fails the same way. */
  lemma {:induction false} CollectFails<T, U>(f: T -> Result<U>, xs: seq<T>, k: nat)
    requires k <= |xs| && Collect(f, xs[..k]).Err?
    ensures Collect(f, xs) == Collect(f, xs[..k])
    decreases |xs| - k
  {
    if k < |xs| {
      assert xs[..k + 1][..k] == xs[..k];
      CollectFails(f, xs, k + 1);
    } else {
      assert xs[..k] == xs;
    }
  }
  /** One more element that succeeds extends a prefix that succeeded. */
  lemma CollectStep<T, U>(f: T -> Result<U>, xs: seq<T>, k: nat, done: seq<U>)
    requires k < |xs| && Collect(f, xs[..k]) == Ok(done) && f(xs[k]).Ok?
    ensures Collect(f, xs[..k + 1]) == Ok(done + [f(xs[k]).value])
  {
    assert xs[..k + 1][..k] == xs[..k];
  }

  /** A prefix that succeeded and an element that fails make the sequence
      fail with that element's error. */
  lemma CollectStops<T, U>(f: T -> Result<U>, xs: seq<T>, k: nat, done: seq<U>)
    requires k < |xs| && Collect(f, xs[..k]) == Ok(done) && f(xs[k]).Err?
    ensures Collect(f, xs) == Err(f(xs[k]).error)
  {
    assert xs[..k + 1][..k] == xs[..k];
    CollectFails(f, xs, k + 1);
  }
}
