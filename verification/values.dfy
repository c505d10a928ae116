/**
 * The Python values a Check can hold, Python 2's `==` on them, and the
 * default comparison a paired Check uses: a student value is wrong when it
 * is unequal to the master value OR of a different runtime type.
 *
 * Python 2 keeps `int` apart from `long` and byte strings (`str`) apart
 * from `unicode`, and `==` crosses both lines (`2 == 2L`, `'a' == u'a'`),
 * so the type test is what flags such pairs. A float is a finite real or
 * NaN; NaN is unequal to everything, itself included. The two values
 * compared are always separately computed objects, so the identity
 * shortcut CPython takes for list elements never applies.
 */
module Values {

  datatype Value =
    | NoneV
    | BoolV(b: bool)
    | IntV(i: int)
    | LongV(i: int)
    | FloatV(f: real)
    | NaNV
    | StrV(s: string)
    | UnicodeV(s: string)
    | ListV(items: seq<Value>)

  /** Python's `type(v)`. */
  datatype PyType = NoneType | Bool | Int | Long | Float | Str | Unicode | List

  function TypeOf(v: Value): (r: PyType) {
    match v
    case NoneV => NoneType
    case BoolV(_) => Bool
    case IntV(_) => Int
    case LongV(_) => Long
    case FloatV(_) => Float
    case NaNV => Float
    case StrV(_) => Str
    case UnicodeV(_) => Unicode
    case ListV(_) => List
  }

  /** `bool`, `int`, `long` and finite `float` values compare by numeric
      value in Python. */
  predicate IsNumber(v: Value) {
    v.BoolV? || v.IntV? || v.LongV? || v.FloatV?
  }

  /** A byte string that decodes as ASCII, which is what Python 2 does to a
      `str` before comparing it with a `unicode`. */
  predicate IsAscii(s: string) {
    forall k :: 0 <= k < |s| ==> s[k] as int < 128
  }

  /** `format(v, '')` gives a value that Python 2 can put into a byte-string
      template: everything but a `unicode` with a non-ASCII character. A
      list is formatted through its `repr`, which escapes such characters,
      so only a top-level `unicode` fails, with UnicodeEncodeError. */
  predicate FormatsIntoStr(v: Value) {
    !(v.UnicodeV? && !IsAscii(v.s))
  }

  /** NaN occurs in the value, at any depth. */
  predicate HasNaN(v: Value) {
    match v
    case NaNV => true
    case ListV(items) => exists k :: 0 <= k < |items| && HasNaN(items[k])
    case _ => false
  }

  function Num(v: Value): real
    requires IsNumber(v)
  {
    match v
    case BoolV(b) => if b then 1.0 else 0.0
    case IntV(i) => i as real
    case LongV(i) => i as real
    case FloatV(f) => f
  }

  /** Python 2's `a == b`: numbers by value across `bool`/`int`/`long`/
      `float`, NaN unequal to everything, strings by content (a `str`
      against a `unicode` only when the `str` is ASCII; otherwise the
      comparison warns and gives `False`), lists element-wise; values of
      unrelated types are unequal (never an error). */
  predicate PyEq(a: Value, b: Value)
    decreases a
  {
    if IsNumber(a) && IsNumber(b) then Num(a) == Num(b)
    else match (a, b)
      case (NoneV, NoneV) => true
      case (StrV(x), StrV(y)) => x == y
      case (UnicodeV(x), UnicodeV(y)) => x == y
      case (StrV(x), UnicodeV(y)) => IsAscii(x) && x == y
      case (UnicodeV(x), StrV(y)) => IsAscii(y) && x == y
      case (ListV(xs), ListV(ys)) => ListEq(a, xs, ys)
      case _ => false
  }

  predicate ListEq(ghost owner: Value, xs: seq<Value>, ys: seq<Value>)
    requires forall k :: 0 <= k < |xs| ==> xs[k] < owner
    decreases owner, |xs|
  {
    |xs| == |ys| && (|xs| == 0 || (PyEq(xs[0], ys[0]) && ListEq(owner, xs[1..], ys[1..])))
  }

  /** `master.val != student.val or type(master.val) != type(student.val)`
      (gradepy/grade.py, `_check_new` and `_check_simple`). */
  predicate Differs(m: Value, s: Value) {
    !PyEq(m, s) || TypeOf(m) != TypeOf(s)
  }

  /** A value is equal to a copy of itself exactly when no NaN occurs in
      it, so a student value identical to a NaN-free master value is never
      reported, and one holding NaN always is. */
  lemma {:induction false} PyEqReflexive(v: Value)
    ensures PyEq(v, v) <==> !HasNaN(v)
    ensures !Differs(v, v) <==> !HasNaN(v)
    decreases v, 1
  {
    if v.ListV? {
      ListEqReflexive(v, v.items);
    }
  }

  lemma {:induction false} ListEqReflexive(owner: Value, xs: seq<Value>)
    requires forall k :: 0 <= k < |xs| ==> xs[k] < owner
    ensures ListEq(owner, xs, xs) <==> forall k :: 0 <= k < |xs| ==> !HasNaN(xs[k])
    decreases owner, 0, |xs|
  {
    if |xs| > 0 {
      PyEqReflexive(xs[0]);
      ListEqReflexive(owner, xs[1..]);
      assert forall k :: 1 <= k < |xs| ==> xs[k] == xs[1..][k - 1];
    }
  }

  /** Python `==` is symmetric, hence so is the default comparison. */
  lemma {:induction false} PyEqSymmetric(a: Value, b: Value)
    ensures PyEq(a, b) == PyEq(b, a)
    ensures Differs(a, b) == Differs(b, a)
    decreases a, 1
  {
    if a.ListV? && b.ListV? {
      ListEqSymmetric(a, b, a.items, b.items);
    }
  }

  lemma {:induction false} ListEqSymmetric(oa: Value, ob: Value, xs: seq<Value>, ys: seq<Value>)
    requires forall k :: 0 <= k < |xs| ==> xs[k] < oa
    requires forall k :: 0 <= k < |ys| ==> ys[k] < ob
    ensures ListEq(oa, xs, ys) == ListEq(ob, ys, xs)
    decreases oa, 0, |xs|
  {
    if |xs| > 0 && |xs| == |ys| {
      PyEqSymmetric(xs[0], ys[0]);
      ListEqSymmetric(oa, ob, xs[1..], ys[1..]);
    }
  }

  /** For values that are not lists, the default comparison accepts the
      student value exactly when it is the master value, other than NaN:
      same type, same content. In particular `2` and `2.0`, `2` and `2L`,
      `'a'` and `u'a'`, or `None` and `''`, differ. */
  lemma ScalarDiffersIff(m: Value, s: Value)
    requires !m.ListV? && !s.ListV?
    ensures !Differs(m, s) <==> m == s && !m.NaNV?
  {
  }

  /** `2 == 2L` and `'a' == u'a'` hold in Python 2, but the types differ,
      so both pairs are flagged; a non-ASCII `str` is not even `==` to the
      `unicode` with the same code points. */
  lemma CrossTypeEqualButFlagged()
    ensures PyEq(IntV(2), LongV(2)) && Differs(IntV(2), LongV(2))
    ensures PyEq(StrV("a"), UnicodeV("a")) && Differs(StrV("a"), UnicodeV("a"))
    ensures !PyEq(StrV("\U{e9}"), UnicodeV("\U{e9}"))
  {
    assert !IsAscii("\U{e9}") by {
      assert "\U{e9}"[0] as int == 0xe9;
    }
  }

  /** The type test is shallow: a list of ints and a list of equal floats
      are the same type and `==`, so they are not reported. */
  lemma {:induction false} ShallowTypeCheck()
    ensures !Differs(ListV([IntV(2)]), ListV([FloatV(2.0)]))
    ensures Differs(IntV(2), FloatV(2.0))
  {
    var a := ListV([IntV(2)]);
    var b := ListV([FloatV(2.0)]);
    assert ListEq(a, a.items[1..], b.items[1..]);
    assert PyEq(a.items[0], b.items[0]);
  }
}
