/**
  The exception-translation layer of jazzy: the four error classes it
  declares and the `exception_handling` decorator, whose wrapper turns the
  three chemistry errors into a `JazzyError` and lets everything else through.

  A decorated function is a value of type `(A, S) -> (Outcome<T>, S)`: `A`
  stands for the positional and keyword arguments, `S` for whatever state
  outside the call the function may read and change.
 */
module JazzyException {
  import opened PyExceptions

  // The four error classes; each derives directly from `Exception`.
  const JazzyError: ExceptionClass := Class("jazzy.exception.JazzyError", [Exception])
  const KallistoError: ExceptionClass := Class("jazzy.exception.KallistoError", [Exception])
  const NegativeLonePairsError: ExceptionClass := Class("jazzy.exception.NegativeLonePairsError", [Exception])
  const MMFFChargeCalculationError: ExceptionClass := Class("jazzy.exception.MMFFChargeCalculationError", [Exception])

  /** The classes of the wrapper's `except` clause, in the order written there. */
  const Handled: seq<ExceptionClass> := [NegativeLonePairsError, KallistoError, MMFFChargeCalculationError]

  /**
    The wrapper's handler catches an exception of class `c`: it catches the
    three chemistry errors, and only ever classes that derive from `Exception`.
   */
  predicate Caught(c: ExceptionClass): (r: bool)
    ensures c in {NegativeLonePairsError, KallistoError, MMFFChargeCalculationError} ==> r
    ensures r ==> IsSubclass(c, Exception)
  {
    HandledAreExceptions();
    MatchesAnyBelow(c, Handled, Exception);
    assert c == NegativeLonePairsError ==> IsSubclass(c, Handled[0]);
    assert c == KallistoError ==> IsSubclass(c, Handled[1]);
    assert c == MMFFChargeCalculationError ==> IsSubclass(c, Handled[2]);
    MatchesAny(c, Handled)
  }

  /** Every class in the handler's tuple derives from `Exception`. */
  lemma HandledAreExceptions()
    ensures forall j :: 0 <= j < |Handled| ==> IsSubclass(Handled[j], Exception)
  {
    forall j | 0 <= j < |Handled|
      ensures IsSubclass(Handled[j], Exception)
    {
      assert Handled[j].bases[0] == Exception;
    }
  }

  /** The outcome raises an exception that the wrapper's handler would catch. */
  predicate RaisesCaught<T>(o: Outcome<T>)
  {
    o.Raised? && Caught(o.exc.cls)
  }

  /**
    A class that derives directly and only from `Exception` is a subclass of
    exactly itself, `Exception` and `BaseException`.
   */
  lemma DirectExceptionSubclass(c: ExceptionClass, t: ExceptionClass)
    requires c.bases == [Exception]
    ensures IsSubclass(c, t) <==> t == c || t == Exception || t == BaseException
  {
    assert c.bases[0] == Exception;
    assert Exception.bases[0] == BaseException;
    if t == Exception || t == BaseException {
      assert IsSubclass(c.bases[0], t);
    } else if t != c {
      assert !IsSubclass(BaseException, t);
      assert !IsSubclass(Exception, t);
    }
  }

  /** The classes declared in the module. */
  const Declared: set<ExceptionClass> := {JazzyError, KallistoError, NegativeLonePairsError, MMFFChargeCalculationError}

  /**
    The four declared classes are exceptions, and none is a subclass of
    another (so in particular they are pairwise distinct).
   */
  lemma DeclaredClassesUnrelated()
    ensures forall c | c in Declared :: IsSubclass(c, Exception) && IsSubclass(c, BaseException)
    ensures forall c, d | c in Declared && d in Declared :: IsSubclass(c, d) <==> c == d
  {
    forall c | c in Declared
      ensures IsSubclass(c, Exception) && IsSubclass(c, BaseException)
    {
      DirectExceptionSubclass(c, Exception);
      DirectExceptionSubclass(c, BaseException);
    }
    forall c, d | c in Declared && d in Declared
      ensures IsSubclass(c, d) <==> c == d
    {
      DirectExceptionSubclass(c, d);
    }
  }

  /**
    For a class that derives directly from `Exception`, as all four declared
    classes and most user-defined errors do, the handler catches it exactly
    when it is one of the three chemistry errors.
   */
  lemma CaughtDirectSubclassIff(c: ExceptionClass)
    requires c.bases == [Exception]
    ensures Caught(c) <==> c in {NegativeLonePairsError, KallistoError, MMFFChargeCalculationError}
  {
    forall j | 0 <= j < |Handled|
      ensures IsSubclass(c, Handled[j]) <==> c == Handled[j]
    {
      DirectExceptionSubclass(c, Handled[j]);
    }
    if c in {NegativeLonePairsError, KallistoError, MMFFChargeCalculationError} {
      var j := if c == NegativeLonePairsError then 0 else if c == KallistoError then 1 else 2;
      assert IsSubclass(c, Handled[j]);
    }
  }

  /** The umbrella error is never caught, nor is any class it derives from. */
  lemma JazzyErrorNotCaught()
    ensures !Caught(JazzyError) && !Caught(Exception) && !Caught(BaseException)
  {
    CaughtDirectSubclassIff(JazzyError);
    forall j | 0 <= j < |Handled|
      ensures !IsSubclass(Exception, Handled[j]) && !IsSubclass(BaseException, Handled[j])
    {
      assert Exception.bases[0] == BaseException;
    }
  }

  /**
    The errors that method dispatch (`ValueError`) and aggregation
    (`IndexError`) raise, and interrupts, are not caught.
   */
  lemma BuiltinErrorsNotCaught()
    ensures !Caught(ValueError) && !Caught(IndexError) && !Caught(LookupError) && !Caught(KeyboardInterrupt)
  {
    JazzyErrorNotCaught();
    forall j | 0 <= j < |Handled|
      ensures !IsSubclass(ValueError, Handled[j]) && !IsSubclass(IndexError, Handled[j])
      ensures !IsSubclass(LookupError, Handled[j]) && !IsSubclass(KeyboardInterrupt, Handled[j])
    {
      assert !IsSubclass(Exception, Handled[j]) && !IsSubclass(BaseException, Handled[j]);
      assert ValueError.bases[0] == Exception && LookupError.bases[0] == Exception;
      assert IndexError.bases[0] == LookupError && KeyboardInterrupt.bases[0] == BaseException;
    }
  }

  /** A subclass of a caught class is caught as well (an `except` clause matches subclasses). */
  lemma CaughtInherited(a: ExceptionClass, b: ExceptionClass)
    requires IsSubclass(a, b) && Caught(b)
    ensures Caught(a)
  {
    MatchesAnyInherited(a, b, Handled);
  }

  /**
    The `except` clause of the wrapper: an outcome that raises one of the
    three chemistry errors becomes a `JazzyError` with the same message,
    raised while handling the original (so the original is its context);
    every other outcome is left as it is.
   */
  function Translate<T>(o: Outcome<T>): (r: Outcome<T>)
    ensures r.Returned? <==> o.Returned?
    ensures o.Returned? ==> r == o
    ensures RaisesCaught(o) ==> r == Raised(Exc(JazzyError, o.exc.msg, Some(o.exc)))
    ensures !RaisesCaught(o) ==> r == o
    ensures !RaisesCaught(r)
  {
    JazzyErrorNotCaught();
    match o
    case Returned(_) => o
    case Raised(e) => if Caught(e.cls) then Raised(Exc(JazzyError, e.msg, Some(e))) else o
  }

  /** `wrapper(*args, **kwargs)`: call the wrapped function once and translate what it does. */
  function Wrapper<A, S, T>(f: (A, S) -> (Outcome<T>, S), args: A, s: S): (r: (Outcome<T>, S))
    ensures r.1 == f(args, s).1
    ensures f(args, s).0.Returned? ==> r.0 == f(args, s).0
    ensures RaisesCaught(f(args, s).0) ==>
              r.0.Raised? && r.0.exc.cls == JazzyError && r.0.exc.msg == f(args, s).0.exc.msg
              && r.0.exc.context == Some(f(args, s).0.exc)
    ensures f(args, s).0.Raised? && !RaisesCaught(f(args, s).0) ==> r.0 == f(args, s).0
    ensures !RaisesCaught(r.0)
  {
    var (o, s') := f(args, s);
    (Translate(o), s')
  }

  /** `exception_handling(func)`: the decorator returns the wrapper around `func`. */
  function ExceptionHandling<A(!new), S(!new), T>(f: (A, S) -> (Outcome<T>, S)): (g: (A, S) -> (Outcome<T>, S))
    ensures forall args, s :: g(args, s).1 == f(args, s).1
    ensures forall args, s :: !RaisesCaught(g(args, s).0)
    ensures forall args, s :: !RaisesCaught(f(args, s).0) ==> g(args, s) == f(args, s)
    ensures forall args, s :: RaisesCaught(f(args, s).0) ==>
              g(args, s).0.Raised? && g(args, s).0.exc.cls == JazzyError
              && g(args, s).0.exc.msg == f(args, s).0.exc.msg
  {
    (args, s) => Wrapper(f, args, s)
  }

  /** Translating twice is translating once: `JazzyError` is not among the caught classes. */
  lemma TranslateIdempotent<T>(o: Outcome<T>)
    ensures Translate(Translate(o)) == Translate(o)
  {
  }

  /** Decorating a function twice behaves exactly like decorating it once. */
  lemma DecorateTwice<A(!new), S(!new), T>(f: (A, S) -> (Outcome<T>, S))
    ensures forall args, s :: ExceptionHandling(ExceptionHandling(f))(args, s) == ExceptionHandling(f)(args, s)
  {
    forall args, s
      ensures ExceptionHandling(ExceptionHandling(f))(args, s) == ExceptionHandling(f)(args, s)
    {
      TranslateIdempotent(f(args, s).0);
    }
  }

  /**
    Decorating changes nothing about a function exactly when the function
    never raises one of the three chemistry errors.
   */
  lemma DecoratedUnchangedIff<A(!new), S(!new), T>(f: (A, S) -> (Outcome<T>, S))
    ensures (forall args, s :: ExceptionHandling(f)(args, s) == f(args, s))
        <==> (forall args, s :: !RaisesCaught(f(args, s).0))
  {
    if forall args, s :: ExceptionHandling(f)(args, s) == f(args, s) {
      forall args, s
        ensures !RaisesCaught(f(args, s).0)
      {
        assert ExceptionHandling(f)(args, s) == f(args, s);
      }
    }
  }

  /** A raised exception that is an exception (derives from `BaseException`) stays one after translation. */
  lemma TranslateKeepsExceptions<T>(o: Outcome<T>)
    requires o.Raised? && IsSubclass(o.exc.cls, BaseException)
    ensures Translate(o).Raised? && IsSubclass(Translate(o).exc.cls, BaseException)
  {
    DirectExceptionSubclass(JazzyError, BaseException);
  }

  /**
    The unsupported-method `ValueError` and the empty-map `IndexError`
    propagate through the wrapper unchanged, with their own message.
   */
  lemma ContractErrorsPropagate<T>(e: Exc)
    requires e.cls in {ValueError, IndexError}
    ensures Translate<T>(Raised(e)) == Raised(e)
  {
    BuiltinErrorsNotCaught();
  }
}
