/** A total order on strings, used only to fix one deterministic order in
    which the elements of a finite set of tags are visited. Python walks a
    `set` in hash order; the model walks it from the least string upwards. */
module OrdenLexico {

  /** Lexicographic order on character codes. */
  predicate MenorIgual(x: string, y: string) {
    |x| == 0 || (|y| > 0 && (x[0] < y[0] || (x[0] == y[0] && MenorIgual(x[1..], y[1..]))))
  }

  lemma {:induction false} Reflexivo(x: string)
    ensures MenorIgual(x, x)
  {
    if |x| > 0 {
      Reflexivo(x[1..]);
    }
  }

  lemma {:induction false} Total(x: string, y: string)
    ensures MenorIgual(x, y) || MenorIgual(y, x)
  {
    if |x| > 0 && |y| > 0 && x[0] == y[0] {
      Total(x[1..], y[1..]);
    }
  }

  lemma {:induction false} Antisimetrico(x: string, y: string)
    requires MenorIgual(x, y) && MenorIgual(y, x)
    ensures x == y
  {
    if |x| > 0 && |y| > 0 {
      Antisimetrico(x[1..], y[1..]);
      assert x == [x[0]] + x[1..];
      assert y == [y[0]] + y[1..];
    }
  }

  lemma {:induction false} Transitivo(x: string, y: string, z: string)
    requires MenorIgual(x, y) && MenorIgual(y, z)
    ensures MenorIgual(x, z)
  {
    if |x| > 0 && x[0] == y[0] && y[0] == z[0] {
      Transitivo(x[1..], y[1..], z[1..]);
    }
  }

  predicate EsMenor(m: string, s: set<string>) {
    m in s && forall u | u in s :: MenorIgual(m, u)
  }

  lemma {:induction false} ExisteMenor(s: set<string>)
    requires s != {}
    ensures exists m :: EsMenor(m, s)
    decreases |s|
  {
    var x :| x in s;
    if s == {x} {
      Reflexivo(x);
      assert EsMenor(x, s);
    } else {
      ExisteMenor(s - {x});
      var m :| EsMenor(m, s - {x});
      Total(x, m);
      if MenorIgual(x, m) {
        forall u | u in s ensures MenorIgual(x, u) {
          if u != x {
            Transitivo(x, m, u);
          } else {
            Reflexivo(x);
          }
        }
        assert EsMenor(x, s);
      } else {
        assert MenorIgual(m, x);
        assert EsMenor(m, s);
      }
    }
  }

  lemma MenorUnico(s: set<string>)
    ensures forall m, m' | EsMenor(m, s) && EsMenor(m', s) :: m == m'
  {
    forall m, m' | EsMenor(m, s) && EsMenor(m', s) ensures m == m' {
      Antisimetrico(m, m');
    }
  }

  /** The least element of a non-empty set of strings. */
  function Menor(s: set<string>): (m: string)
    requires s != {}
    ensures m in s
    ensures forall u | u in s :: MenorIgual(m, u)
  {
    ExisteMenor(s);
    MenorUnico(s);
    var m :| EsMenor(m, s);
    m
  }
}
