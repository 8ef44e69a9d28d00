/**
 * The "happens before" order on timeline keys (time/compiler.js:1-9).
 *
 * Times and steps are integers, except that an omitted time defaults to
 * -Infinity in the engine's store and an omitted step defaults to +Infinity
 * in the editor's store. Both are values of one extended-integer type whose
 * `<` and `==` behave as JavaScript's do on the infinities.
 */
module Order {

  datatype XInt = NegInf | Fin(n: int) | PosInf

  /** JavaScript's `<` on numbers that are integers or infinite. */
  predicate Less(a: XInt, b: XInt) {
    match (a, b)
    case (NegInf, NegInf) => false
    case (NegInf, _) => true
    case (Fin(x), Fin(y)) => x < y
    case (Fin(_), PosInf) => true
    case (_, _) => false
  }

  /** A point on the timeline: a simulated time and the step of the instruction. */
  datatype Key = Key(t: XInt, step: XInt)

  /**
   * `a` precedes `b` when it is at an earlier time, or at the same time and
   * produced by a later step.
   */
  predicate Precedes(a: Key, b: Key) {
    if Less(a.t, b.t) then true
    else if a.t == b.t && Less(b.step, a.step) then true
    else false
  }

  lemma LessIsStrictTotal(a: XInt, b: XInt, c: XInt)
    ensures !Less(a, a)
    ensures Less(a, b) && Less(b, c) ==> Less(a, c)
    ensures a != b ==> (Less(a, b) <==> !Less(b, a))
  {
  }

  /** Nothing precedes itself. */
  lemma PrecedesIrreflexive(a: Key)
    ensures !Precedes(a, a)
  {
    LessIsStrictTotal(a.t, a.t, a.t);
    LessIsStrictTotal(a.step, a.step, a.step);
  }

  lemma PrecedesTransitive(a: Key, b: Key, c: Key)
    requires Precedes(a, b) && Precedes(b, c)
    ensures Precedes(a, c)
  {
    LessIsStrictTotal(a.t, b.t, c.t);
    LessIsStrictTotal(c.step, b.step, a.step);
  }

  /** For two distinct keys exactly one direction holds; for equal keys neither. */
  lemma PrecedesTrichotomy(a: Key, b: Key)
    ensures a == b <==> !Precedes(a, b) && !Precedes(b, a)
    ensures !(Precedes(a, b) && Precedes(b, a))
  {
    LessIsStrictTotal(a.t, b.t, a.t);
    LessIsStrictTotal(a.step, b.step, a.step);
  }

  /** Not preceding is transitive too: the order is total. */
  lemma NotPrecedesTransitive(a: Key, b: Key, c: Key)
    requires !Precedes(a, b) && !Precedes(b, c)
    ensures !Precedes(a, c)
  {
    LessIsStrictTotal(a.t, b.t, c.t);
    LessIsStrictTotal(c.t, b.t, a.t);
    LessIsStrictTotal(a.step, b.step, c.step);
    LessIsStrictTotal(c.step, b.step, a.step);
  }

  /**
   * With the step omitted (+Infinity) nothing at the same time precedes the
   * query: only strictly earlier times are visible.
   */
  lemma StepOmittedSeesOnlyEarlierTimes(k: Key, t: int)
    ensures Precedes(k, Key(Fin(t), PosInf)) <==> Less(k.t, Fin(t))
  {
  }

  /** The key the engine gives inputs without a time and step: (-Infinity, -1). */
  const InputKey: Key := Key(NegInf, Fin(-1))

  /** Between a step and the next smaller step at the same time no finite key fits. */
  lemma ImmediateSuccessor(k: Key, t: XInt, s: int)
    ensures Precedes(Key(t, Fin(s)), Key(t, Fin(s - 1)))
    ensures Precedes(k, Key(t, Fin(s - 1))) ==> k == Key(t, Fin(s)) || Precedes(k, Key(t, Fin(s)))
  {
  }
}
