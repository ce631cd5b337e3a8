/** The management list (`/movimiento`): rows ordered by `nombre` ascending.
    SQLite compares text with its BINARY collation, byte by byte on UTF-8, which
    is the order of code points, so names compare character by character. */
module Listing {
  import opened Records

  /** `a` sorts before or with `b`: lexicographic order on characters, a proper
      prefix first. */
  predicate NameLe(a: string, b: string)
    decreases |a|
  {
    |a| == 0 || (|b| > 0 && (a[0] < b[0] || (a[0] == b[0] && NameLe(a[1..], b[1..]))))
  }

  lemma {:induction false} NameLeReflexive(a: string)
    ensures NameLe(a, a)
    decreases |a|
  {
    if |a| > 0 { NameLeReflexive(a[1..]); }
  }

  lemma {:induction false} NameLeAntisymmetric(a: string, b: string)
    requires NameLe(a, b) && NameLe(b, a)
    ensures a == b
    decreases |a|
  {
    if |a| > 0 {
      NameLeAntisymmetric(a[1..], b[1..]);
      assert a == [a[0]] + a[1..] && b == [b[0]] + b[1..];
    }
  }

  lemma {:induction false} NameLeTransitive(a: string, b: string, c: string)
    requires NameLe(a, b) && NameLe(b, c)
    ensures NameLe(a, c)
    decreases |a|
  {
    if |a| > 0 && a[0] == b[0] && b[0] == c[0] {
      NameLeTransitive(a[1..], b[1..], c[1..]);
    }
  }

  lemma {:induction false} NameLeTotal(a: string, b: string)
    ensures NameLe(a, b) || NameLe(b, a)
    decreases |a|
  {
    if |a| > 0 && |b| > 0 && a[0] == b[0] {
      NameLeTotal(a[1..], b[1..]);
    }
  }

  /** Non-decreasing by name. */
  predicate SortedByName(s: seq<Alumno>) {
    forall i, j :: 0 <= i < j < |s| ==> NameLe(s[i].nombre, s[j].nombre)
  }

  /** `x` sorts before or with every row of `s`. */
  predicate NameAtMost(x: Alumno, s: seq<Alumno>) {
    forall k :: 0 <= k < |s| ==> NameLe(x.nombre, s[k].nombre)
  }

  /** Place `x` into a list already sorted by name. */
  function InsertByName(s: seq<Alumno>, x: Alumno): (r: seq<Alumno>)
    requires SortedByName(s)
    ensures SortedByName(r)
    ensures multiset(r) == multiset(s) + multiset{x}
    decreases |s|
  {
    if s == [] then [x]
    else if NameLe(x.nombre, s[0].nombre) then
      LeadingRowSorts(x, s);
      [x] + s
    else
      NameLeTotal(x.nombre, s[0].nombre);
      var tail := InsertByName(s[1..], x);
      assert s == [s[0]] + s[1..];
      FirstRowAtMost(s[0], s[1..], x, tail);
      [s[0]] + tail
  }

  /** A row that sorts before or with the head of a sorted list can lead it. */
  lemma LeadingRowSorts(x: Alumno, s: seq<Alumno>)
    requires SortedByName(s) && |s| > 0 && NameLe(x.nombre, s[0].nombre)
    ensures SortedByName([x] + s)
  {
    forall k | 0 <= k < |s| ensures NameLe(x.nombre, s[k].nombre) {
      if k > 0 { NameLeTransitive(x.nombre, s[0].nombre, s[k].nombre); }
    }
  }

  /** `h` can lead `t` when `t` is `rest` with `x` added and `h` sorts before or
      with all of them. */
  lemma FirstRowAtMost(h: Alumno, rest: seq<Alumno>, x: Alumno, t: seq<Alumno>)
    requires SortedByName([h] + rest) && SortedByName(t)
    requires NameLe(h.nombre, x.nombre)
    requires multiset(t) == multiset(rest) + multiset{x}
    ensures SortedByName([h] + t)
  {
    forall k | 0 <= k < |t| ensures NameLe(h.nombre, t[k].nombre) {
      assert t[k] in multiset(t);
      if t[k] != x {
        assert t[k] in multiset(rest);
        var j :| 0 <= j < |rest| && rest[j] == t[k];
        var hr := [h] + rest;
        assert hr[0] == h && hr[j + 1] == t[k];
        assert NameLe(hr[0].nombre, hr[j + 1].nombre);
      }
    }
    var ht := [h] + t;
    forall i, j | 0 <= i < j < |ht| ensures NameLe(ht[i].nombre, ht[j].nombre) {
      if i > 0 { assert ht[i] == t[i - 1] && ht[j] == t[j - 1]; }
      else { assert ht[j] == t[j - 1]; }
    }
  }

  /** For rows with distinct names the sorted order is unique: any two rows of
      a sorted list with different names come in strictly ascending order. */
  lemma SortedDistinctStrict(s: seq<Alumno>, i: int, j: int)
    requires SortedByName(s) && 0 <= i < j < |s| && s[i].nombre != s[j].nombre
    ensures !NameLe(s[j].nombre, s[i].nombre)
  {
    if NameLe(s[j].nombre, s[i].nombre) {
      NameLeAntisymmetric(s[i].nombre, s[j].nombre);
    }
  }

  /** Rows named "Zoe", "Ana" and "Mateo" can only be listed as Ana, Mateo,
      Zoe. */
  lemma ListOrderExample(s: seq<Alumno>, zoe: Alumno, ana: Alumno, mateo: Alumno)
    requires zoe.nombre == "Zoe" && ana.nombre == "Ana" && mateo.nombre == "Mateo"
    requires SortedByName(s) && multiset(s) == multiset{zoe, ana, mateo}
    ensures s == [ana, mateo, zoe]
  {
    assert |s| == 3 by { assert |multiset(s)| == 3; }
    assert !NameLe("Zoe", "Ana") && !NameLe("Zoe", "Mateo") && !NameLe("Mateo", "Ana");
    forall i | 0 <= i < 3 ensures s[i] == zoe || s[i] == ana || s[i] == mateo {
      assert s[i] in multiset(s);
    }
    assert s[0] in multiset(s) && s[1] in multiset(s) && s[2] in multiset(s);
    assert ana in multiset(s) && mateo in multiset(s) && zoe in multiset(s);
    assert NameLe(s[0].nombre, s[1].nombre) && NameLe(s[1].nombre, s[2].nombre)
        && NameLe(s[0].nombre, s[2].nombre);
  }
}
