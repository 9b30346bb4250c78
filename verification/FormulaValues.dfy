/** What the formula evaluator computes
    (crates/nemclass-model/src/address/interpreter.rs): the laws of arithmetic on
    machine words, and when an evaluation fails. */
module FormulaValues {
  import opened Memory
  import opened Formula

  type Modules = string -> Option<nat>
  type Reader = nat -> Option<nat>

  /** Module bases and the words read from memory are machine words. */
  ghost predicate Words(modules: Modules, read: Reader) {
    && (forall name :: modules(name).Some? ==> modules(name).value <= USIZE_MAX)
    && (forall a :: read(a).Some? ==> read(a).value <= USIZE_MAX)
  }

  /** So is every value of a formula. */
  lemma ValuesAreWords(x: Expr, modules: Modules, read: Reader)
    requires Words(modules, read)
    ensures Evaluate(x, modules, read).Ok? ==> Evaluate(x, modules, read).value <= USIZE_MAX
  {
    if x.Add? || x.Sub? || x.Mul? {
      var l, r := Evaluate(x.lhs, modules, read), Evaluate(x.rhs, modules, read);
      if l.Ok? && r.Ok? {
        SumValue(x.lhs, x.rhs, l.value, r.value, modules, read);
        DifferenceValue(x.lhs, x.rhs, l.value, r.value, modules, read);
        ProductValue(x.lhs, x.rhs, l.value, r.value, modules, read);
      }
    }
  }

  // ----- Wrapping ----------------------------------------------------------------------

  lemma WrapUnique(x: int, k: int, r: nat)
    requires x == WORD * k + r && r < WORD
    ensures Wrap(x) == r
  {
  }

  lemma WrapAdds(m: int, n: int)
    ensures Wrap(Wrap(m) + n) == Wrap(m + n)
  {
    var j, k, r := m / WORD, (Wrap(m) + n) / WORD, Wrap(Wrap(m) + n);
    assert m == WORD * j + Wrap(m);
    assert Wrap(m) + n == WORD * k + r;
    WrapUnique(m + n, j + k, r);
  }

  lemma SumValue(a: Expr, b: Expr, m: nat, n: nat, modules: Modules, read: Reader)
    requires Evaluate(a, modules, read) == Ok(m) && Evaluate(b, modules, read) == Ok(n)
    ensures Evaluate(Add(a, b), modules, read) == Ok(Wrap(m + n))
  {
  }

  lemma DifferenceValue(a: Expr, b: Expr, m: nat, n: nat, modules: Modules, read: Reader)
    requires Evaluate(a, modules, read) == Ok(m) && Evaluate(b, modules, read) == Ok(n)
    ensures Evaluate(Sub(a, b), modules, read) == Ok(Wrap(m - n))
  {
  }

  lemma ProductValue(a: Expr, b: Expr, m: nat, n: nat, modules: Modules, read: Reader)
    requires Evaluate(a, modules, read) == Ok(m) && Evaluate(b, modules, read) == Ok(n)
    ensures Evaluate(Mul(a, b), modules, read) == Ok(Wrap(m * n))
  {
  }

  lemma NegatedValue(a: Expr, m: nat, modules: Modules, read: Reader)
    requires Evaluate(a, modules, read) == Ok(m)
    ensures Evaluate(Negate(a), modules, read) == Ok(Wrap(0 - m as int))
  {
  }

  lemma QuotientValue(a: Expr, b: Expr, m: nat, n: nat, q: nat, modules: Modules, read: Reader)
    requires Evaluate(a, modules, read) == Ok(m) && Evaluate(b, modules, read) == Ok(n) && n != 0 && q == Wrap(m / n)
    ensures Evaluate(Div(a, b), modules, read) == Ok(q)
  {
  }

  lemma RemainderValue(a: Expr, b: Expr, m: nat, n: nat, r: nat, modules: Modules, read: Reader)
    requires Evaluate(a, modules, read) == Ok(m) && Evaluate(b, modules, read) == Ok(n) && n != 0 && r == Wrap(m % n)
    ensures Evaluate(Rem(a, b), modules, read) == Ok(r)
  {
  }

  // ----- Arithmetic ------------------------------------------------------------------

  /** Adding back what was subtracted. */
  lemma SubThenAdd(a: Expr, b: Expr, m: nat, n: nat, modules: Modules, read: Reader)
    requires Evaluate(a, modules, read) == Ok(m) && m <= USIZE_MAX && Evaluate(b, modules, read) == Ok(n)
    ensures Evaluate(Add(Sub(a, b), b), modules, read) == Ok(m)
  {
    DifferenceValue(a, b, m, n, modules, read);
    SumValue(Sub(a, b), b, Wrap(m - n), n, modules, read);
    WrapAdds(m - n, n);
  }

  /** Subtraction is addition of the negated. */
  lemma SubIsAddNegated(a: Expr, b: Expr, m: nat, n: nat, modules: Modules, read: Reader)
    requires Evaluate(a, modules, read) == Ok(m) && Evaluate(b, modules, read) == Ok(n)
    ensures Evaluate(Sub(a, b), modules, read) == Evaluate(Add(a, Negate(b)), modules, read)
  {
    DifferenceValue(a, b, m, n, modules, read);
    NegatedValue(b, n, modules, read);
    SumValue(a, Negate(b), m, Wrap(0 - n as int), modules, read);
    WrapAdds(0 - n as int, m);
  }

  /** What is negated cancels out. */
  lemma NegatedCancels(a: Expr, m: nat, modules: Modules, read: Reader)
    requires Evaluate(a, modules, read) == Ok(m)
    ensures Evaluate(Add(Negate(a), a), modules, read) == Ok(0)
  {
    NegatedValue(a, m, modules, read);
    SumValue(Negate(a), a, Wrap(0 - m as int), m, modules, read);
    WrapAdds(0 - m as int, m);
  }

  /** Literals are themselves; adding one counts up and starts over past the last word. */
  lemma AddCounts(a: Expr, m: nat, modules: Modules, read: Reader)
    requires Evaluate(a, modules, read) == Ok(m) && m <= USIZE_MAX
    ensures Evaluate(Add(a, Constant(0)), modules, read) == Ok(m)
    ensures Evaluate(Add(a, Constant(1)), modules, read) == Ok(if m == USIZE_MAX then 0 else m + 1)
  {
    SumValue(a, Constant(0), m, 0, modules, read);
    SumValue(a, Constant(1), m, 1, modules, read);
  }

  /** Adding one more adds one. */
  lemma AddSteps(a: Expr, b: Expr, m: nat, n: nat, modules: Modules, read: Reader)
    requires Evaluate(a, modules, read) == Ok(m) && Evaluate(b, modules, read) == Ok(n)
    ensures Evaluate(Add(a, Add(b, Constant(1))), modules, read) == Evaluate(Add(Add(a, b), Constant(1)), modules, read)
  {
    SumValue(b, Constant(1), n, 1, modules, read);
    SumValue(a, b, m, n, modules, read);
    SumValue(a, Add(b, Constant(1)), m, Wrap(n + 1), modules, read);
    SumValue(Add(a, b), Constant(1), Wrap(m + n), 1, modules, read);
    WrapAdds(n + 1, m);
    WrapAdds(m + n, 1);
  }

  /** Multiplication is repeated addition. */
  lemma MulZero(a: Expr, m: nat, modules: Modules, read: Reader)
    requires Evaluate(a, modules, read) == Ok(m)
    ensures Evaluate(Mul(a, Constant(0)), modules, read) == Ok(0)
  {
    ProductValue(a, Constant(0), m, 0, modules, read);
  }

  lemma MulSteps(a: Expr, b: Expr, m: nat, n: nat, modules: Modules, read: Reader)
    requires Evaluate(a, modules, read) == Ok(m) && Evaluate(b, modules, read) == Ok(n)
    ensures Evaluate(Mul(a, Add(b, Constant(1))), modules, read) == Evaluate(Add(Mul(a, b), a), modules, read)
  {
    SumValue(b, Constant(1), n, 1, modules, read);
    ProductValue(a, Add(b, Constant(1)), m, Wrap(n + 1), modules, read);
    ProductValue(a, b, m, n, modules, read);
    SumValue(Mul(a, b), a, Wrap(m * n), m, modules, read);
    MulStep(m, n);
  }

  lemma MulStep(m: nat, n: nat)
    ensures Wrap(m * Wrap(n + 1)) == Wrap(Wrap(m * n) + m)
  {
    var k, r := (n + 1) / WORD, Wrap(n + 1);
    assert n + 1 == WORD * k + r;
    var p, q := m * r, m * k;
    MulSplits(m, n, k, r);
    WrapUnique(m * n + m, q + p / WORD, Wrap(p));
    WrapAdds(m * n, m);
  }

  lemma MulSplits(m: nat, n: nat, k: nat, r: nat)
    requires n + 1 == WORD * k + r
    ensures m * n + m == WORD * (m * k) + m * r
  {
    assert m * (n + 1) == m * (WORD * k) + m * r;
    assert m * (WORD * k) == WORD * (m * k);
  }

  lemma Divide(m: nat, n: nat) returns (q: nat, r: nat)
    requires m <= USIZE_MAX && n > 0
    ensures m == q * n + r && r < n && q <= q * n <= m
    ensures Wrap(m / n) == q && Wrap(m % n) == r && Wrap(q * n) == q * n && Wrap(m) == m
  {
    q, r := m / n, m % n;
    Quotient(m, n, q, r);
  }

  lemma Quotient(m: nat, n: nat, q: nat, r: nat)
    requires n > 0 && q == m / n && r == m % n
    ensures m == q * n + r && r < n && q <= q * n <= m
  {
    assert m == n * q + r;
    MulGrows(q, n - 1);
  }

  /** Quotient and remainder make up the dividend, and the remainder is below the divisor. */
  lemma QuotientAndRemainder(a: Expr, b: Expr, m: nat, n: nat, modules: Modules, read: Reader)
    requires Evaluate(a, modules, read) == Ok(m) && Evaluate(b, modules, read) == Ok(n)
    requires m <= USIZE_MAX && 0 < n
    ensures Evaluate(Add(Mul(Div(a, b), b), Rem(a, b)), modules, read) == Ok(m)
    ensures exists r :: r < n && Evaluate(Rem(a, b), modules, read) == Ok(r)
  {
    var q, r := Divide(m, n);
    QuotientValue(a, b, m, n, q, modules, read);
    RemainderValue(a, b, m, n, r, modules, read);
    ProductValue(Div(a, b), b, q, n, modules, read);
    SumValue(Mul(Div(a, b), b), Rem(a, b), q * n, r, modules, read);
  }

  // ----- Failure --------------------------------------------------------------------------

  /** Division and remainder by zero fail with their own error, whatever is divided. */
  lemma ByZero(a: Expr, b: Expr, modules: Modules, read: Reader)
    requires Evaluate(b, modules, read) == Ok(0)
    ensures Evaluate(Div(a, b), modules, read) == Err(DivisionByZero)
    ensures Evaluate(Rem(a, b), modules, read) == Err(ModuloByZero)
  {
  }

  /** A sum, a difference or a product fails exactly when an operand does, with the error
      of the first that does. */
  lemma SumsFail(x: Expr, modules: Modules, read: Reader)
    requires x.Add? || x.Sub? || x.Mul?
    ensures var l, r := Evaluate(x.lhs, modules, read), Evaluate(x.rhs, modules, read);
            && (Evaluate(x, modules, read).Err? <==> l.Err? || r.Err?)
            && (Evaluate(x, modules, read).Err? ==> Evaluate(x, modules, read) == if l.Err? then l else r)
  {
  }

  /** So does a quotient or a remainder by anything but zero, but the divisor comes first. */
  lemma QuotientsFail(x: Expr, modules: Modules, read: Reader)
    requires (x.Div? || x.Rem?) && Evaluate(x.rhs, modules, read) != Ok(0)
    ensures var l, r := Evaluate(x.lhs, modules, read), Evaluate(x.rhs, modules, read);
            && (Evaluate(x, modules, read).Err? <==> l.Err? || r.Err?)
            && (Evaluate(x, modules, read).Err? ==> Evaluate(x, modules, read) == if r.Err? then r else l)
  {
  }

  /** A negation fails with its operand, a dereference also when the read does. */
  lemma UnaryFails(a: Expr, modules: Modules, read: Reader)
    ensures var v := Evaluate(a, modules, read);
            && (Evaluate(Negate(a), modules, read).Err? <==> v.Err?)
            && (v.Err? ==> Evaluate(Negate(a), modules, read) == v == Evaluate(Deref(a), modules, read))
            && (v.Ok? ==> (Evaluate(Deref(a), modules, read).Err? <==> read(v.value).None?))
            && (v.Ok? && read(v.value).None? ==> Evaluate(Deref(a), modules, read) == Err(ReadFailed))
            && (v.Ok? && read(v.value).Some? ==> Evaluate(Deref(a), modules, read) == Ok(read(v.value).value))
  {
  }
}
