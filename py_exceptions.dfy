/**
  Python's exception machinery, as far as the exception-translation layer
  depends on it: exception classes with their bases, the subclass relation
  that an `except` clause tests, exception values (the class, the message
  `str(e)` and the implicit `__context__`), and the outcome of a call,
  which either returns a value or raises an exception.
 */
module PyExceptions {

  datatype Option<+T> = None | Some(value: T)

  /** A class, identified by its qualified name, with its direct bases. */
  datatype ExceptionClass = Class(qualname: string, bases: seq<ExceptionClass>)

  /** `issubclass(c, target)`: `target` is `c` itself or lies on the chain of bases of `c`. */
  predicate IsSubclass(c: ExceptionClass, target: ExceptionClass)
    decreases c
  {
    c == target || exists i :: 0 <= i < |c.bases| && IsSubclass(c.bases[i], target)
  }

  /** `isinstance(e, (t0, t1, ...))`, as an `except` clause with a tuple of classes tests it. */
  predicate MatchesAny(c: ExceptionClass, handled: seq<ExceptionClass>)
  {
    exists j :: 0 <= j < |handled| && IsSubclass(c, handled[j])
  }

  // The built-in classes the model refers to.
  const BaseException: ExceptionClass := Class("builtins.BaseException", [])
  const Exception: ExceptionClass := Class("builtins.Exception", [BaseException])
  const ValueError: ExceptionClass := Class("builtins.ValueError", [Exception])
  const LookupError: ExceptionClass := Class("builtins.LookupError", [Exception])
  const IndexError: ExceptionClass := Class("builtins.IndexError", [LookupError])
  const KeyboardInterrupt: ExceptionClass := Class("builtins.KeyboardInterrupt", [BaseException])

  /**
    A raised exception: its class, the text `str(e)`, and `__context__`, the
    exception that was being handled when this one was raised (if any).
   */
  datatype Exc = Exc(cls: ExceptionClass, msg: string, context: Option<Exc>)

  /** What a Python call does: return a value or raise an exception. */
  datatype Outcome<+T> = Returned(value: T) | Raised(exc: Exc)

  /** The subclass relation is transitive: a handler for `c` also catches subclasses of subclasses of `c`. */
  lemma {:induction false} SubclassTransitive(a: ExceptionClass, b: ExceptionClass, c: ExceptionClass)
    requires IsSubclass(a, b) && IsSubclass(b, c)
    ensures IsSubclass(a, c)
    decreases a
  {
    if a != b {
      var i :| 0 <= i < |a.bases| && IsSubclass(a.bases[i], b);
      SubclassTransitive(a.bases[i], b, c);
    }
  }

  /** A class matched by a tuple of handlers keeps matching it in every subclass. */
  lemma MatchesAnyInherited(a: ExceptionClass, b: ExceptionClass, handled: seq<ExceptionClass>)
    requires IsSubclass(a, b) && MatchesAny(b, handled)
    ensures MatchesAny(a, handled)
  {
    var j :| 0 <= j < |handled| && IsSubclass(b, handled[j]);
    SubclassTransitive(a, b, handled[j]);
  }

  /** If every class of a handler tuple derives from `t`, so does every class the tuple matches. */
  lemma MatchesAnyBelow(c: ExceptionClass, handled: seq<ExceptionClass>, t: ExceptionClass)
    requires forall j :: 0 <= j < |handled| ==> IsSubclass(handled[j], t)
    ensures MatchesAny(c, handled) ==> IsSubclass(c, t)
  {
    if MatchesAny(c, handled) {
      var j :| 0 <= j < |handled| && IsSubclass(c, handled[j]);
      SubclassTransitive(c, handled[j], t);
    }
  }
}
