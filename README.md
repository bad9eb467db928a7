# jazzy exception-translation layer in Dafny

jazzy computes per-atom hydrogen-bond descriptors for small molecules.
`src/jazzy/exception.py` declares its error classes and a decorator that
translates some of them. The module declares four
error classes: `JazzyError`, the user-facing umbrella error, and three
chemistry errors, `KallistoError`, `NegativeLonePairsError` and
`MMFFChargeCalculationError`. It also defines the decorator
`exception_handling`. Its `wrapper` calls the decorated function and returns
that function's value. If the call raises one of the three chemistry errors,
the wrapper raises a `JazzyError` carrying the same message instead. Every
other exception passes through unchanged.

The project has two modules:

- `PyExceptions` (`py_exceptions.dfy`) models the part of Python the layer
  relies on. An exception class is `Class(qualname, bases)`. `IsSubclass` is
  the reflexive-transitive closure over bases, which is what an `except`
  clause tests. `MatchesAny` tests a tuple of classes, as `except (A, B, C)`
  does. A raised exception `Exc` holds its class, its text `str(e)` and its
  `__context__`. A call's `Outcome` either returns a value or raises an
  exception. The built-in classes the layer meets (`BaseException`,
  `Exception`, `ValueError`, `LookupError`, `IndexError`,
  `KeyboardInterrupt`) are constants.
- `JazzyException` (`jazzy_exception.dfy`) holds the four declared classes
  and the handler's tuple `Handled`, kept in source order. It defines
  `Caught`, the `except` test, and `Translate`, the effect of the `except`
  body on an outcome. `Wrapper` is the inner `wrapper` and
  `ExceptionHandling` is the decorator.

A decorated function is a value `f: (A, S) -> (Outcome<T>, S)`. `A` stands
for the forwarded `*args, **kwargs`, and `S` for any outside state the
function reads or changes. With the state made explicit, "the wrapped
function is called exactly once and the wrapper adds no effect" becomes
`Wrapper(f, args, s).1 == f(args, s).1`.

Classes are kept as a general hierarchy rather than a flat enumeration.
Python's `except` also matches subclasses, so a class defined elsewhere that
derives from `KallistoError` is caught too (`CaughtInherited`). The flat view
still holds for every class that derives directly from `Exception`: such a
class is caught exactly when it is one of the three chemistry errors
(`CaughtDirectSubclassIff`). The decorator translates exactly the three
chemistry errors and their subclasses; `ValueError`, `IndexError` and every
other class pass through (`ContractErrorsPropagate`).

`raise JazzyError(str(e))` sits inside the `except` block, so Python sets the
new error's `__context__` to the caught exception. The model keeps that link,
so the original exception can still be read from the translated error.

## Model

| member | source | states |
|---|---|---|
| `PyExceptions.SubclassTransitive` | src/jazzy/exception.py:34 | the subclass relation that the `except` clause tests is transitive |
| `PyExceptions.MatchesAnyInherited` | src/jazzy/exception.py:34 | if a tuple of handler classes matches a class, it matches every subclass of that class |
| `JazzyException.DirectExceptionSubclass` | src/jazzy/exception.py:5-25 | a class whose only base is `Exception` is a subclass of exactly itself, `Exception` and `BaseException` |
| `JazzyException.DeclaredClassesUnrelated` | src/jazzy/exception.py:5-25 | all four declared classes are exceptions; for any two of them, one is a subclass of the other only when they are the same class, so they are pairwise distinct and unrelated |
| `JazzyException.CaughtDirectSubclassIff` | src/jazzy/exception.py:5-34 | a class deriving directly from `Exception` is caught if and only if it is `NegativeLonePairsError`, `KallistoError` or `MMFFChargeCalculationError` |
| `JazzyException.JazzyErrorNotCaught` | src/jazzy/exception.py:5-34 | `JazzyError`, `Exception` and `BaseException` are not caught by the handler |
| `JazzyException.BuiltinErrorsNotCaught` | src/jazzy/exception.py:34 | `ValueError`, `IndexError`, `LookupError` and `KeyboardInterrupt` are not caught |
| `JazzyException.Caught` | src/jazzy/exception.py:34 | the `except` test: true when the class is a subclass of one of the three handled classes; it holds for each of the three, and only for classes deriving from `Exception` (its further properties: `CaughtDirectSubclassIff`, `CaughtInherited`) |
| `JazzyException.CaughtInherited` | src/jazzy/exception.py:34 | any subclass of a caught class is caught too |
| `JazzyException.Translate` | src/jazzy/exception.py:33-35 | a return passes through unchanged; a caught error becomes a `JazzyError` with the same message whose context is the original; anything else is unchanged; the result never raises a caught class |
| `JazzyException.Wrapper` | src/jazzy/exception.py:31-35 | the state after the wrapper is the state after one call of the wrapped function; a returned value is passed through; a caught error becomes a `JazzyError` with the original message and the original as context; any other exception propagates with the same class and message; the wrapper never raises a caught class |
| `JazzyException.ExceptionHandling` | src/jazzy/exception.py:28-37 | the decorator returns a function that, on every argument and state, leaves the state as one call of the wrapped function does, never raises a caught class, behaves exactly like the wrapped function when that call raises no caught class, and otherwise raises a `JazzyError` with the original message (its further properties: `DecorateTwice`, `DecoratedUnchangedIff`) |
| `JazzyException.TranslateIdempotent` | src/jazzy/exception.py:34-35 | translating an outcome twice gives the same result as translating it once |
| `JazzyException.DecorateTwice` | src/jazzy/exception.py:28-37 | a function decorated twice behaves like the same function decorated once, on every argument and state |
| `JazzyException.DecoratedUnchangedIff` | src/jazzy/exception.py:28-37 | decorating leaves a function's behaviour unchanged if and only if the function never raises a caught error |
| `JazzyException.TranslateKeepsExceptions` | src/jazzy/exception.py:5-35 | if the original error derives from `BaseException`, so does its translation |
| `JazzyException.ContractErrorsPropagate` | src/jazzy/exception.py:34 | a `ValueError` or an `IndexError` propagates through the wrapper unchanged |

## Left out

- Where the decorator is applied, and why exactly these three classes are
  translated, is not stated in `src/jazzy/exception.py`; `jazzy.core` and
  `jazzy.helpers` are not part of this model. The model covers the
  decorator, not where it is applied or the intent behind the narrowing.
- Python refuses to raise an object whose class does not derive from
  `BaseException`; the model lets any class be raised. Every lemma holds for
  all classes, and `TranslateKeepsExceptions` covers the classes Python
  accepts.
- The descriptor pipeline depends on RDKit and kallisto and on floating-point
  values: molecule adaptation, charge dispatch, descriptor-map construction
  and aggregation. None of it is part of this model.
- `str(e)` is taken as the exception's message text. The `args` tuple, a
  user-defined `__str__`, and a `__str__` that itself raises are not
  modelled.
- A class is identified by its qualified name and bases. Two distinct class
  objects with the same name and the same bases would be equal in the model.
  Metaclass `__subclasscheck__` overrides are not modelled.
- Tracebacks, `__cause__` and `__suppress_context__` are not modelled (the
  source leaves them at their defaults). The wrapper does not use
  `functools.wraps`, so the decorated function loses its `__name__` and
  `__doc__`; function metadata is not modelled.
- The wrapped function is modelled as a total function value. Python
  functions that never terminate, and forwarding of `*args, **kwargs`, are
  modelled only as applying `f` to one argument value.
