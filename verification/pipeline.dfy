/** `compose` (server.js:16): `(...fs) => val => fs.reduce((cur, f) => f(cur), val)`.
    The stages run left to right, each on its predecessor's result. A stage
    may throw, and a thrown exception leaves `reduce` at once, so a stage is
    modelled as a function into `Result` and the first `Failure` is the
    outcome of the whole pipeline. */
module Pipeline {

  import opened Wrappers

  /** Applies `g` to a successful value; a failure passes through untouched. */
  function Then<T, E>(r: Result<T, E>, g: T -> Result<T, E>): Result<T, E> {
    match r
    case Success(v) => g(v)
    case Failure(e) => Failure(e)
  }

  /** `compose(...fs)(x)`: the left fold of the stages over `x`. With no
      stage it is the identity, with one stage it is that stage, and a throw
      in the first stage is the outcome of the whole pipeline. */
  function Compose<T, E>(fs: seq<T -> Result<T, E>>, x: T): (r: Result<T, E>)
    ensures |fs| == 1 ==> r == fs[0](x)
    ensures |fs| > 0 && fs[0](x).Failure? ==> r == Failure(fs[0](x).error)
    decreases |fs|
  {
    if |fs| == 0 then Success(x)
    else Then(fs[0](x), y => Compose(fs[1..], y))
  }

  /** The right-nested reading of the same pipeline: the last stage applied
      to the composition of all the others. */
  function Nested<T, E>(fs: seq<T -> Result<T, E>>, x: T): Result<T, E>
    decreases |fs|
  {
    if |fs| == 0 then Success(x)
    else Then(Nested(fs[..|fs| - 1], x), fs[|fs| - 1])
  }

  /** `compose()` is the identity and `compose(f, g)(x) == g(f(x))`. */
  lemma ComposeSmall<T, E>(f: T -> Result<T, E>, g: T -> Result<T, E>, x: T)
    ensures Compose<T, E>([], x) == Success(x)
    ensures Compose([f], x) == f(x)
    ensures Compose([f, g], x) == Then(f(x), g)
  {
    assert [f, g][1..] == [g];
    match f(x)
    case Failure(e) =>
    case Success(y) =>
      calc {
        Compose([f, g], x);
        Compose([g], y);
        Then(g(y), z => Compose([f, g][2..], z));
        { if g(y).Success? { assert Compose([f, g][2..], g(y).value) == g(y); } }
        g(y);
      }
  }

  /** Running `fs + gs` is running `fs` and then running `gs` on its result. */
  lemma {:induction false} ComposeAppend<T, E>(fs: seq<T -> Result<T, E>>, gs: seq<T -> Result<T, E>>, x: T)
    ensures Compose(fs + gs, x) == Then(Compose(fs, x), y => Compose(gs, y))
    decreases |fs|
  {
    if |fs| == 0 {
      assert fs + gs == gs;
    } else {
      assert (fs + gs)[1..] == fs[1..] + gs;
      match fs[0](x)
      case Failure(e) =>
      case Success(y) =>
        ComposeAppend(fs[1..], gs, y);
    }
  }

  /** The left fold and the right-nested composition agree on every
      pipeline: `compose` is associative in the way its name promises. */
  lemma {:induction false} ComposeIsNested<T, E>(fs: seq<T -> Result<T, E>>, x: T)
    ensures Compose(fs, x) == Nested(fs, x)
    decreases |fs|
  {
    if |fs| > 0 {
      var init := fs[..|fs| - 1];
      var last := fs[|fs| - 1];
      assert fs == init + [last];
      ComposeAppend(init, [last], x);
      ComposeIsNested(init, x);
      match Compose(init, x)
      case Failure(e) =>
      case Success(y) =>
        ComposeSmall(last, last, y);
    }
  }

  /** A stage that throws stops the pipeline: nothing after it runs. */
  lemma {:induction false} ComposeStopsAtFailure<T, E>(fs: seq<T -> Result<T, E>>, i: nat, x: T, e: E)
    requires i < |fs|
    requires Compose(fs[..i], x).Success? && fs[i](Compose(fs[..i], x).value) == Failure(e)
    ensures Compose(fs, x) == Failure(e)
  {
    assert fs == fs[..i] + fs[i..];
    ComposeAppend(fs[..i], fs[i..], x);
    assert fs[i..][1..] == fs[i + 1..];
  }
}
