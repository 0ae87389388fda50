/** Text normalisation used by the catalogue: `Nettoyer` (strip then case-fold),
    `str.lower()` for e-mail comparison, and Python's substring test `p in s`.
    Only ASCII whitespace and ASCII letters are normalised. */
module Texte {

  /** The characters `str.strip()` removes, restricted to ASCII:
      tab, line feed, vertical tab, form feed, carriage return,
      the four separators 0x1C..0x1F, and space. */
  predicate EstEspace(c: char)
  {
    var n := c as int;
    n == 32 || 9 <= n <= 13 || 28 <= n <= 31
  }

  predicate ToutEspace(s: string)
  {
    forall i :: 0 <= i < |s| ==> EstEspace(s[i])
  }

  /** Lower-case one character (ASCII letters only). */
  function Minuscule(c: char): (d: char)
    ensures !('A' <= d <= 'Z')
    ensures 'A' <= c <= 'Z' ==> d as int == c as int + 32
    ensures EstEspace(d) == EstEspace(c)
    ensures !('A' <= c <= 'Z') ==> d == c
  {
    if 'A' <= c <= 'Z' then (c as int + 32) as char else c
  }

  /** `str.lower()`, character by character. */
  function EnMinuscules(s: string): (r: string)
    ensures |r| == |s|
    ensures forall i :: 0 <= i < |s| ==> r[i] == Minuscule(s[i])
  {
    if s == [] then [] else [Minuscule(s[0])] + EnMinuscules(s[1..])
  }

  /** `str.lstrip()`; `RognerDebutCaracterise` states what it returns. */
  function RognerDebut(s: string): (r: string)
    ensures |r| <= |s|
  {
    if |s| > 0 && EstEspace(s[0]) then RognerDebut(s[1..]) else s
  }

  /** `str.rstrip()`; `RognerFinCaracterise` states what it returns. */
  function RognerFin(s: string): (r: string)
    ensures |r| <= |s|
  {
    if |s| > 0 && EstEspace(s[|s| - 1]) then RognerFin(s[..|s| - 1]) else s
  }

  /** `str.strip()`. */
  function Rogner(s: string): (r: string)
    ensures |r| <= |s|
  {
    RognerFin(RognerDebut(s))
  }

  /** `Nettoyer(S)`: `S.strip().casefold()`, Projet_V2.py line 16. The result has no
      capital letter and neither starts nor ends with whitespace; `NettoyerForme`
      says which part of `s` it is. */
  function Nettoyer(s: string): (r: string)
    ensures |r| <= |s|
    ensures forall i :: 0 <= i < |r| ==> !('A' <= r[i] <= 'Z')
    ensures |r| > 0 ==> !EstEspace(r[0]) && !EstEspace(r[|r| - 1])
  {
    RognerDebutCaracterise(s);
    RognerFinCaracterise(RognerDebut(s));
    EnMinuscules(Rogner(s))
  }

  /** `p` occurs in `s` starting at position `i`. */
  predicate OccurrenceEn(p: string, s: string, i: int)
  {
    0 <= i && i + |p| <= |s| && s[i..i + |p|] == p
  }

  /** Python's `p in s` on strings. */
  function EstSousChaine(p: string, s: string): (r: bool)
    ensures |p| == 0 ==> r
    ensures r ==> |p| <= |s|
  {
    |p| <= |s| && (s[..|p|] == p || EstSousChaine(p, s[1..]))
  }

  // ----- lemmas -----

  /** `RognerDebut(s)` is the suffix of `s` left once its leading whitespace is gone:
      what was dropped is all whitespace and what is kept does not start with any. */
  lemma {:induction false} RognerDebutCaracterise(s: string)
    ensures var r := RognerDebut(s);
      r == s[|s| - |r|..] && ToutEspace(s[..|s| - |r|]) && (|r| > 0 ==> !EstEspace(r[0]))
    decreases |s|
  {
    if |s| > 0 && EstEspace(s[0]) {
      RognerDebutCaracterise(s[1..]);
      var r := RognerDebut(s);
      assert s[1..][|s| - 1 - |r|..] == s[|s| - |r|..];
      assert s[..|s| - |r|] == [s[0]] + s[1..][..|s| - 1 - |r|];
    }
  }

  /** `RognerFin(s)` is the prefix of `s` left once its trailing whitespace is gone:
      what was dropped is all whitespace and what is kept does not end with any. */
  lemma {:induction false} RognerFinCaracterise(s: string)
    ensures var r := RognerFin(s);
      r == s[..|r|] && ToutEspace(s[|r|..]) && (|r| > 0 ==> !EstEspace(r[|r| - 1]))
    decreases |s|
  {
    if |s| > 0 && EstEspace(s[|s| - 1]) {
      RognerFinCaracterise(s[..|s| - 1]);
      var r := RognerFin(s);
      assert s[..|s| - 1][..|r|] == s[..|r|];
      assert s[|r|..] == s[..|s| - 1][|r|..] + [s[|s| - 1]];
    }
  }

  /** `Nettoyer(s)` has neither leading nor trailing whitespace nor any capital letter,
      and is made of the lower-cased characters of `s` between its first and last
      non-whitespace character. */
  lemma NettoyerForme(s: string)
    ensures var r := Nettoyer(s);
      (|r| > 0 ==> !EstEspace(r[0]) && !EstEspace(r[|r| - 1])) &&
      (forall i :: 0 <= i < |r| ==> !('A' <= r[i] <= 'Z')) &&
      exists a, b :: 0 <= a <= b <= |s| && r == EnMinuscules(s[a..b]) &&
                     ToutEspace(s[..a]) && ToutEspace(s[b..])
  {
    var d := RognerDebut(s);
    RognerDebutCaracterise(s);
    var f := RognerFin(d);
    RognerFinCaracterise(d);
    var a := |s| - |d|;
    var b := a + |f|;
    assert f == s[a..b];
    assert s[b..] == d[|f|..];
    if |f| > 0 {
      assert f[0] == d[0];
    }
    assert Nettoyer(s) == EnMinuscules(s[a..b]);
  }

  lemma EnMinusculesIdempotent(s: string)
    ensures EnMinuscules(EnMinuscules(s)) == EnMinuscules(s)
  {
  }

  lemma {:induction false} RognerDebutMinuscules(s: string)
    ensures EnMinuscules(RognerDebut(s)) == RognerDebut(EnMinuscules(s))
    decreases |s|
  {
    if |s| > 0 && EstEspace(s[0]) {
      assert EnMinuscules(s)[1..] == EnMinuscules(s[1..]);
      RognerDebutMinuscules(s[1..]);
    }
  }

  lemma {:induction false} RognerFinMinuscules(s: string)
    ensures EnMinuscules(RognerFin(s)) == RognerFin(EnMinuscules(s))
    decreases |s|
  {
    if |s| > 0 && EstEspace(s[|s| - 1]) {
      assert EnMinuscules(s)[..|s| - 1] == EnMinuscules(s[..|s| - 1]);
      RognerFinMinuscules(s[..|s| - 1]);
    }
  }

  /** Stripping and lower-casing commute, so `Nettoyer` is `Rogner` of the lower-cased text. */
  lemma NettoyerCommeRognerMinuscules(s: string)
    ensures Nettoyer(s) == Rogner(EnMinuscules(s))
  {
    RognerFinMinuscules(RognerDebut(s));
    RognerDebutMinuscules(s);
  }

  /** Case does not affect `Nettoyer`. */
  lemma NettoyerInsensibleCasse(s: string, t: string)
    requires EnMinuscules(s) == EnMinuscules(t)
    ensures Nettoyer(s) == Nettoyer(t)
  {
    NettoyerCommeRognerMinuscules(s);
    NettoyerCommeRognerMinuscules(t);
  }

  lemma {:induction false} RognerDebutPrefixeEspaces(a: string, s: string)
    requires ToutEspace(a)
    ensures RognerDebut(a + s) == RognerDebut(s)
    decreases |a|
  {
    if |a| > 0 {
      assert (a + s)[1..] == a[1..] + s;
      RognerDebutPrefixeEspaces(a[1..], s);
    } else {
      assert a + s == s;
    }
  }

  lemma {:induction false} RognerFinSuffixeEspaces(s: string, b: string)
    requires ToutEspace(b)
    ensures RognerFin(s + b) == RognerFin(s)
    decreases |b|
  {
    if |b| > 0 {
      assert (s + b)[..|s + b| - 1] == s + b[..|b| - 1];
      RognerFinSuffixeEspaces(s, b[..|b| - 1]);
    } else {
      assert s + b == s;
    }
  }

  lemma {:induction false} RognerDebutConcat(s: string, b: string)
    ensures ToutEspace(s) ==> RognerDebut(s + b) == RognerDebut(b)
    ensures !ToutEspace(s) ==> RognerDebut(s + b) == RognerDebut(s) + b
    decreases |s|
  {
    if |s| == 0 {
      assert s + b == b;
    } else if EstEspace(s[0]) {
      assert (s + b)[1..] == s[1..] + b;
      assert ToutEspace(s) <==> ToutEspace(s[1..]);
      RognerDebutConcat(s[1..], b);
    } else {
      assert !ToutEspace(s);
    }
  }

  /** Surrounding whitespace does not affect `Nettoyer`. */
  lemma NettoyerIgnoreEspacesEntourants(a: string, s: string, b: string)
    requires ToutEspace(a) && ToutEspace(b)
    ensures Nettoyer(a + s + b) == Nettoyer(s)
  {
    assert a + s + b == a + (s + b);
    RognerDebutPrefixeEspaces(a, s + b);
    RognerDebutConcat(s, b);
    if ToutEspace(s) {
      RognerDebutPrefixeEspaces(b, []);
      assert b + [] == b;
      RognerDebutPrefixeEspaces(s, []);
      assert s + [] == s;
    } else {
      RognerFinSuffixeEspaces(RognerDebut(s), b);
    }
  }

  /** Normalising twice is normalising once. */
  lemma NettoyerIdempotent(s: string)
    ensures Nettoyer(Nettoyer(s)) == Nettoyer(s)
  {
    var r := Rogner(s);
    RognerDebutCaracterise(s);
    RognerFinCaracterise(RognerDebut(s));
    if |r| > 0 {
      assert r[0] == RognerDebut(s)[0];
    }
    assert RognerDebut(EnMinuscules(r)) == EnMinuscules(r) by {
      RognerDebutMinuscules(r);
    }
    assert RognerFin(EnMinuscules(r)) == EnMinuscules(r) by {
      RognerFinMinuscules(r);
    }
    EnMinusculesIdempotent(r);
  }

  /** `p in s` holds exactly when `p` occurs at some position of `s`. */
  lemma {:induction false} EstSousChaineSsiOccurrence(p: string, s: string)
    ensures EstSousChaine(p, s) <==> exists i :: OccurrenceEn(p, s, i)
    decreases |s|
  {
    if |p| <= |s| && s[..|p|] != p {
      if |s| > 0 {
        EstSousChaineSsiOccurrence(p, s[1..]);
        if EstSousChaine(p, s[1..]) {
          var i :| OccurrenceEn(p, s[1..], i);
          assert s[i + 1..i + 1 + |p|] == s[1..][i..i + |p|];
          assert OccurrenceEn(p, s, i + 1);
        }
        if i :| OccurrenceEn(p, s, i) {
          assert i != 0;
          assert s[1..][i - 1..i - 1 + |p|] == s[i..i + |p|];
          assert OccurrenceEn(p, s[1..], i - 1);
        }
      }
    } else if |p| <= |s| {
      assert OccurrenceEn(p, s, 0);
    }
  }

  /** A lower-case letter, accented `é` included. */
  predicate LettreMinuscule(c: char)
  {
    'a' <= c <= 'z' || c == 'é'
  }

  /** A word of lower-case letters is its own normal form. */
  lemma NettoyerMotMinuscule(w: string)
    requires forall i :: 0 <= i < |w| ==> LettreMinuscule(w[i])
    ensures Nettoyer(w) == w
  {
    assert forall i :: 0 <= i < |w| ==> !EstEspace(w[i]) && !('A' <= w[i] <= 'Z');
    if |w| > 0 {
      assert RognerDebut(w) == w;
      assert RognerFin(w) == w;
    }
    forall i | 0 <= i < |w| ensures EnMinuscules(w)[i] == w[i] {
    }
  }

  /** The search criteria and status labels of the catalogue are already normalised. */
  lemma MotDisponibilite()
    ensures Nettoyer("disponibilite") == "disponibilite"
  {
    NettoyerMotMinuscule("disponibilite");
  }

  lemma MotDisponible()
    ensures Nettoyer("disponible") == "disponible"
  {
    NettoyerMotMinuscule("disponible");
  }

  lemma MotEmprunte()
    ensures Nettoyer("emprunté") == "emprunté"
  {
    NettoyerMotMinuscule("emprunté");
  }

  lemma MotTitre()
    ensures Nettoyer("titre") == "titre"
  {
    NettoyerMotMinuscule("titre");
  }
}
