/** func.go: building functions out of functions. Go closures become Dafny
  * function values; the closure Times returns keeps two variables between
  * calls and becomes a class. */
module Funcs {
  import opened Outcomes

  /** The value PipeCallback's loop reaches: each function in turn applied
    * to the result of the one before. */
  function Pipe<T>(fns: seq<T -> T>, args: T): T
  {
    if fns == [] then args else fns[|fns| - 1](Pipe(fns[..|fns| - 1], args))
  }

  /** PipeCallback: the closure that runs the pipe. */
  function PipeCallback<T>(fns: seq<T -> T>): (T -> T)
  {
    (args: T) => Pipe(fns, args)
  }

  /** The first function runs first: piping f then the rest is piping the
    * rest on f's result. */
  lemma {:induction false} PipeFirst<T>(f: T -> T, fns: seq<T -> T>, args: T)
    ensures PipeCallback([f] + fns)(args) == PipeCallback(fns)(f(args))
    decreases |fns|
  {
    if fns == [] {
      assert [f] + fns == [f];
      assert [f][..0] == [];
      assert Pipe([f], args) == f(args);
    } else {
      var init := fns[..|fns| - 1];
      assert ([f] + fns)[..|fns|] == [f] + init;
      PipeFirst(f, init, args);
      assert Pipe([f] + fns, args) == fns[|fns| - 1](Pipe([f] + init, args));
    }
  }

  /** With no functions the pipe is the identity. */
  lemma PipeEmpty<T>(args: T)
    ensures PipeCallback<T>([])(args) == args
  {
  }

  /** The test: add one, double, square from 55 gives 12544. */
  lemma PipeExample()
    ensures PipeCallback([(x: int) => x + 1, (x: int) => x * 2, (x: int) => x * x])(55) == 12544
  {
    var fns := [(x: int) => x + 1, (x: int) => x * 2, (x: int) => x * x];
    assert fns[..2][..1] == [fns[0]];
    assert [fns[0]][..0] == [];
    assert Pipe(fns[..2][..1], 55) == 56;
    assert Pipe(fns[..2], 55) == 112;
  }

  /** The closure Compose builds for funcs[0..n]: each new function is
    * applied first and its result handed to what was built so far. */
  function ComposeFrom<T>(funcs: seq<seq<T> -> T>, n: nat): (seq<T> -> T)
    requires 1 <= n <= |funcs|
  {
    if n == 1 then funcs[0]
    else
      var a, b := ComposeFrom(funcs, n - 1), funcs[n - 1];
      (args: seq<T>) => a([b(args)])
  }

  /** Compose: with no functions, funcs[0] is out of range and Go panics. */
  function Compose<T>(funcs: seq<seq<T> -> T>): (r: Outcome<seq<T> -> T>)
    ensures r.Panic? <==> |funcs| == 0
  {
    if |funcs| == 0 then Panic("index out of range") else Done(ComposeFrom(funcs, |funcs|))
  }

  /** f1(f2(...fn(args))): the last function is applied first to the
    * arguments, each result is passed as the only argument of the one
    * before. */
  function Nested<T>(funcs: seq<seq<T> -> T>, args: seq<T>): T
    requires |funcs| >= 1
    decreases |funcs|
  {
    if |funcs| == 1 then funcs[0](args) else funcs[0]([Nested(funcs[1..], args)])
  }

  /** Nesting one more function innermost feeds its result to the rest. */
  lemma {:induction false} NestedSnoc<T>(funcs: seq<seq<T> -> T>, g: seq<T> -> T, args: seq<T>)
    requires |funcs| >= 1
    ensures Nested(funcs + [g], args) == Nested(funcs, [g(args)])
    decreases |funcs|
  {
    if |funcs| > 1 {
      assert (funcs + [g])[1..] == funcs[1..] + [g];
      NestedSnoc(funcs[1..], g, args);
    } else {
      assert (funcs + [g])[1..] == [g];
    }
  }

  /** Composing the first n functions nests them. */
  lemma {:induction false} ComposeFromNested<T>(funcs: seq<seq<T> -> T>, n: nat, args: seq<T>)
    requires 1 <= n <= |funcs|
    ensures ComposeFrom(funcs, n)(args) == Nested(funcs[..n], args)
    decreases n
  {
    if n > 1 {
      var b := funcs[n - 1];
      assert ComposeFrom(funcs, n)(args) == ComposeFrom(funcs, n - 1)([b(args)]);
      ComposeFromNested(funcs, n - 1, [b(args)]);
      NestedSnoc(funcs[..n - 1], b, args);
      PrefixSnoc(funcs, n);
    } else {
      assert funcs[..n][0] == funcs[0];
    }
  }

  lemma PrefixSnoc<U>(s: seq<U>, n: nat)
    requires 1 <= n <= |s|
    ensures s[..n - 1] + [s[n - 1]] == s[..n]
  {
  }

  /** Compose(f1..fn)(args) = f1(f2(...fn(args))). */
  lemma ComposeNests<T>(funcs: seq<seq<T> -> T>, args: seq<T>)
    requires |funcs| >= 1
    ensures Compose(funcs).Done? && Compose(funcs).value(args) == Nested(funcs, args)
  {
    ComposeFromNested(funcs, |funcs|, args);
    assert funcs[..|funcs|] == funcs;
  }

  /** The closure Times returns: `value` and `times` live between calls.
    * The callback either returns a value or panics; `zero` is T's zero
    * value, which Go gives `value` at the start. */
  class TimesClosure<T> {
    const cb: seq<T> -> Outcome<T>
    const x: int
    const zero: T
    var value: T
    var times: int
    /** The values of the calls of cb that returned, in order. */
    ghost var completed: seq<T>

    ghost predicate Valid()
      reads this
    {
      && times == |completed|
      && (times <= x || times == 0)
      && value == (if completed == [] then zero else completed[|completed| - 1])
    }

    /** Times(cb, x): nothing stored yet and no call counted. */
    constructor Times(cb: seq<T> -> Outcome<T>, x: int, zero: T)
      ensures this.cb == cb && this.x == x && this.zero == zero
      ensures value == zero && times == 0 && completed == []
      ensures Valid()
    {
      this.cb := cb;
      this.x := x;
      this.zero := zero;
      value := zero;
      times := 0;
      completed := [];
    }

    /** One call of the closure. While fewer than x calls of cb have
      * returned, cb runs again: a value it returns is stored and counted;
      * a panic is recovered, nothing is stored or counted, and the call
      * returns T's zero value, since the result is not named. Once x calls
      * have returned, the stored value is returned without running cb. */
    method Call(args: seq<T>) returns (r: T)
      requires Valid()
      modifies this
      ensures Valid()
      ensures old(times) >= x ==> r == old(value) && times == old(times) && value == old(value)
      ensures old(times) < x && cb(args).Done? ==>
        r == cb(args).value && completed == old(completed) + [cb(args).value]
      ensures old(times) < x && cb(args).Panic? ==> r == zero && completed == old(completed) && value == old(value)
    {
      if times < x {
        var outcome := cb(args);
        if outcome.Panic? {
          return zero;
        }
        value := outcome.value;
        times := times + 1;
        completed := completed + [outcome.value];
      }
      r := value;
    }
  }

  /** A closure allowed twice: a third call gives the second call's value
    * without running the callback again. */
  method TimesTwice() returns (a: int, b: int, c: int)
    ensures a == 1 && b == 2 && c == 2
  {
    var t := new TimesClosure.Times((args: seq<int>) => Done(|args|), 2, 0);
    a := t.Call([7]);
    b := t.Call([7, 8]);
    c := t.Call([7, 8, 9]);
  }
}
