/**
 Calls on a container shared by threads, as their callers see them: the argument of a call, and what
 the accesses of the calling thread have done to the container since the call began.
 */
module Calls {
  import opened Options

  datatype Operation = Push(v: int) | Pop

  datatype Effect = Put(v: int) | Took(v: int)

  datatype Call = Call(op: Operation, effects: seq<Effect>)

  /**
   What a returned call must have done: a push has put its argument, once; a pop that hands out a
   value has taken that value, once; a pop that hands out nothing has done nothing.
   */
  predicate Answers(call: Call, out: Option<int>) {
    match call.op
    case Push(v) => call.effects == [Put(v)]
    case Pop => call.effects == if out == None then [] else [Took(out.value)]
  }
}
