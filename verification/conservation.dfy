/** Every operation of the library keeps the invariant `Regles.Inv`: stock and status
    agree, users and loans are filed under their ids, the per-reader index is exact,
    each reader's set of held books matches its active loans, and no reader has more
    than `MAXI_PRET_ACTIF` of them. */
module Conservation {
  import opened Texte
  import opened Modele
  import opened Regles

  // ----- helpers -----

  /** States that agree on their loans agree on every reader's active loans. */
  lemma MemesPrets(s: Etat, t: Etat)
    requires t.emprunts == s.emprunts
    ensures forall r :: Actifs(t, r) == Actifs(s, r) && LivresActifs(t, r) == LivresActifs(s, r)
  {
  }

  /** Books replaced one for one with the same ids are found at the same positions. */
  lemma {:induction false} IndiceMemesIds(ls: seq<Livre>, ms: seq<Livre>, id: int)
    requires |ms| == |ls|
    requires forall j :: 0 <= j < |ls| ==> ms[j].id == ls[j].id
    ensures IndiceLivre(ms, id) == IndiceLivre(ls, id)
    ensures LivreExiste(ms, id) <==> LivreExiste(ls, id)
    decreases |ls|
  {
    if |ls| > 0 && ls[0].id != id {
      IndiceMemesIds(ls[1..], ms[1..], id);
    }
  }

  /** Books replaced one for one with the same ids keep the ids distinct and issued. */
  lemma IdsEmisMemesIds(ls: seq<Livre>, ms: seq<Livre>, c: int)
    requires |ms| == |ls| && IdsLivresEmis(ls, c)
    requires forall j :: 0 <= j < |ls| ==> ms[j].id == ls[j].id
    ensures IdsLivresEmis(ms, c)
  {
  }

  lemma MemesIds(ls: seq<Livre>, ms: seq<Livre>)
    requires |ms| == |ls|
    requires forall j :: 0 <= j < |ls| ==> ms[j].id == ls[j].id
    ensures forall id :: IndiceLivre(ms, id) == IndiceLivre(ls, id)
    ensures forall id :: LivreExiste(ms, id) <==> LivreExiste(ls, id)
  {
    forall id
      ensures IndiceLivre(ms, id) == IndiceLivre(ls, id)
      ensures LivreExiste(ms, id) <==> LivreExiste(ls, id)
    {
      IndiceMemesIds(ls, ms, id);
    }
  }

  // ----- catalogue -----

  /** Moving the book counter on (`Livre.Compteur += 1`) keeps the invariant. */
  lemma CompteurLivreConserve(s: Etat, c: int)
    requires Inv(s) && c >= s.compteurLivre
    ensures Inv(s.(compteurLivre := c))
  {
    MemesPrets(s, s.(compteurLivre := c));
  }


  /** A change to the book list alone keeps the invariant when every book stays
      coherent and every book on loan is still catalogued. */
  lemma CatalogueSeulConserve(s: Etat, ms: seq<Livre>)
    requires Inv(s) && StocksCoherents(ms) && IdsLivresEmis(ms, s.compteurLivre)
    requires forall k :: k in s.emprunts && !s.emprunts[k].retourne ==> LivreExiste(ms, s.emprunts[k].livreId)
    ensures Inv(s.(livres := ms))
  {
    MemesPrets(s, s.(livres := ms));
  }

  /** Adding a coherent book whose id was handed out and is not catalogued yet keeps
      the invariant. */
  lemma AjouterLivreConserve(s: Etat, livre: Livre, acteur: Utilisateur)
    requires Inv(s) && livre.Coherent()
    requires livre.id < s.compteurLivre && !LivreExiste(s.livres, livre.id)
    ensures Inv(AjouterLivre(s, livre, acteur).0)
  {
    if AjouterLivre(s, livre, acteur).1 == Succes {
      var ms := s.livres + [livre];
      forall id | LivreExiste(s.livres, id) ensures LivreExiste(ms, id) {
        var j :| 0 <= j < |s.livres| && s.livres[j].id == id;
        assert ms[j].id == id;
      }
      assert IdsLivresEmis(ms, s.compteurLivre) by {
        forall i, j | 0 <= i < j < |ms| ensures ms[i].id != ms[j].id {
          if j == |s.livres| {
            assert ms[i] == s.livres[i];
          }
        }
      }
      CatalogueSeulConserve(s, ms);
    }
  }

  /** Building a book and adding it keeps the invariant: the id it takes is new. */
  lemma AjouterNouveauLivreConserve(s: Etat, titre: string, auteur: string, categorie: string,
                                    exemplaires: int, acteur: Utilisateur)
    requires Inv(s)
    ensures Inv(AjouterNouveauLivre(s, titre, auteur, categorie, exemplaires, acteur).0)
  {
    var c := s.compteurLivre;
    var l := NouveauLivre(c, titre, auteur, categorie, exemplaires);
    CompteurLivreConserve(s, c + 1);
    AjouterLivreConserve(s.(compteurLivre := c + 1), l, acteur);
  }

  lemma ModifierLivreConserve(s: Etat, livreId: int, acteur: Utilisateur, ch: Champs)
    requires Inv(s)
    ensures Inv(ModifierLivre(s, livreId, acteur, ch).0)
  {
    var t := ModifierLivre(s, livreId, acteur, ch).0;
    if ModifierLivre(s, livreId, acteur, ch).1 == Succes {
      MemesIds(s.livres, t.livres);
      IdsEmisMemesIds(s.livres, t.livres, s.compteurLivre);
      CatalogueSeulConserve(s, t.livres);
    }
  }

  /** Removing a book no active loan refers to leaves every active loan's book catalogued. */
  lemma RetraitGardeLesPrets(s: Etat, i: nat)
    requires PretsActifsValides(s) && i < |s.livres| && !EmprunteEnCours(s, s.livres[i].id)
    ensures forall k :: k in s.emprunts && !s.emprunts[k].retourne ==>
              LivreExiste(s.livres[..i] + s.livres[i + 1..], s.emprunts[k].livreId)
  {
    var ms := s.livres[..i] + s.livres[i + 1..];
    forall k | k in s.emprunts && !s.emprunts[k].retourne
      ensures LivreExiste(ms, s.emprunts[k].livreId)
    {
      var id := s.emprunts[k].livreId;
      var j :| 0 <= j < |s.livres| && s.livres[j].id == id;
      assert j != i;
      if j < i {
        assert ms[j].id == id;
      } else {
        assert ms[j - 1].id == id;
      }
    }
  }

  /** Removing one book keeps the other ids distinct and issued. */
  lemma RetraitGardeLesIds(ls: seq<Livre>, i: nat, c: int)
    requires IdsLivresEmis(ls, c) && i < |ls|
    ensures IdsLivresEmis(ls[..i] + ls[i + 1..], c)
  {
    var ms := ls[..i] + ls[i + 1..];
    forall j | 0 <= j < |ms| ensures ms[j] == ls[if j < i then j else j + 1] {
    }
  }

  lemma SupprimerLivreConserve(s: Etat, livreId: int, acteur: Utilisateur, reponse: string)
    requires Inv(s)
    ensures Inv(SupprimerLivre(s, livreId, acteur, reponse).0)
  {
    if SupprimerLivre(s, livreId, acteur, reponse).1 == Succes {
      var i := IndiceLivre(s.livres, livreId).value;
      var ms := s.livres[..i] + s.livres[i + 1..];
      RetraitGardeLesPrets(s, i);
      assert StocksCoherents(ms) by {
        forall j | 0 <= j < |ms| ensures ms[j].Coherent() {
          assert ms[j] == if j < i then s.livres[j] else s.livres[j + 1];
        }
      }
      RetraitGardeLesIds(s.livres, i, s.compteurLivre);
      CatalogueSeulConserve(s, ms);
    }
  }

  // ----- users -----

  lemma AjouterUtilisateurConserve(s: Etat, u: Utilisateur)
    requires Inv(s)
    requires u.Lecteur? ==> u.livresEmpruntes == {}
    ensures Inv(AjouterUtilisateur(s, u).0)
  {
    var (t, r) := AjouterUtilisateur(s, u);
    if r == Succes {
      MemesPrets(s, t);
      assert AnnuaireCoherent(t.utilisateurs);
      assert PretsActifsValides(t);
      assert DetentionsExactes(t) by {
        // no active loan can name a user who was not registered
        assert LivresActifs(s, u.id) == {};
      }
    }
  }

  // ----- loans -----

  /** Under the invariant, the count through the index is the number of active loans. */
  lemma NbActifsIndexesExact(s: Etat, r: int)
    requires IndexExact(s)
    ensures NbActifsIndexes(s, r) == |Actifs(s, r)|
  {
    var viaIndex := set k | k in IndexDe(s, r) && k in s.emprunts && !s.emprunts[k].retourne;
    forall k ensures k in viaIndex <==> k in Actifs(s, r) {
      if k in Actifs(s, r) {
        assert s.emprunts[k].lecteurId == r;
        assert k in IndexDe(s, r);
      }
    }
    assert viaIndex == Actifs(s, r);
  }

  /** Filing a new active loan `n` of book `b` for reader `r`. */
  lemma ActifsApresAjout(s: Etat, t: Etat, n: int, e: Emprunt)
    requires n !in s.emprunts && t.emprunts == s.emprunts[n := e] && !e.retourne
    ensures Actifs(t, e.lecteurId) == Actifs(s, e.lecteurId) + {n}
    ensures LivresActifs(t, e.lecteurId) == LivresActifs(s, e.lecteurId) + {e.livreId}
    ensures forall x :: x != e.lecteurId ==> Actifs(t, x) == Actifs(s, x) && LivresActifs(t, x) == LivresActifs(s, x)
  {
    var r := e.lecteurId;
    forall x ensures Actifs(t, x) == Actifs(s, x) + (if x == r then {n} else {}) {
      forall k ensures k in Actifs(t, x) <==> k in Actifs(s, x) + (if x == r then {n} else {}) {
        if k != n && k in t.emprunts { assert t.emprunts[k] == s.emprunts[k]; }
      }
    }
    forall x ensures LivresActifs(t, x) == LivresActifs(s, x) + (if x == r then {e.livreId} else {}) {
      forall b ensures b in LivresActifs(t, x) <==> b in LivresActifs(s, x) + (if x == r then {e.livreId} else {}) {
        if b in LivresActifs(t, x) {
          var k :| k in t.emprunts && t.emprunts[k].lecteurId == x && !t.emprunts[k].retourne &&
                   t.emprunts[k].livreId == b;
          if k != n { assert k in s.emprunts && s.emprunts[k] == t.emprunts[k]; }
        }
        if b in LivresActifs(s, x) {
          var k :| k in s.emprunts && s.emprunts[k].lecteurId == x && !s.emprunts[k].retourne &&
                   s.emprunts[k].livreId == b;
          assert k != n && t.emprunts[k] == s.emprunts[k];
        }
        if x == r && b == e.livreId {
          assert t.emprunts[n] == e;
        }
      }
    }
  }

  /** Marking the active loan `k` returned. */
  lemma ActifsApresRetour(s: Etat, t: Etat, k: int, maintenant: int)
    requires k in s.emprunts && !s.emprunts[k].retourne && UnPretParLivre(s)
    requires t.emprunts == s.emprunts[k := Rendu(s.emprunts[k], maintenant)]
    ensures Actifs(t, s.emprunts[k].lecteurId) == Actifs(s, s.emprunts[k].lecteurId) - {k}
    ensures LivresActifs(t, s.emprunts[k].lecteurId) ==
            LivresActifs(s, s.emprunts[k].lecteurId) - {s.emprunts[k].livreId}
    ensures forall x :: x != s.emprunts[k].lecteurId ==>
              Actifs(t, x) == Actifs(s, x) && LivresActifs(t, x) == LivresActifs(s, x)
  {
    var e := s.emprunts[k];
    var r := e.lecteurId;
    forall x ensures Actifs(t, x) == Actifs(s, x) - {k} {
      forall m ensures m in Actifs(t, x) <==> m in Actifs(s, x) - {k} {
        if m != k && m in t.emprunts { assert t.emprunts[m] == s.emprunts[m]; }
      }
    }
    forall x ensures LivresActifs(t, x) == LivresActifs(s, x) - (if x == r then {e.livreId} else {}) {
      forall b ensures b in LivresActifs(t, x) <==> b in LivresActifs(s, x) - (if x == r then {e.livreId} else {}) {
        if b in LivresActifs(t, x) {
          var m :| m in t.emprunts && t.emprunts[m].lecteurId == x && !t.emprunts[m].retourne &&
                   t.emprunts[m].livreId == b;
          assert m != k && s.emprunts[m] == t.emprunts[m];
        }
        if b in LivresActifs(s, x) && !(x == r && b == e.livreId) {
          var m :| m in s.emprunts && s.emprunts[m].lecteurId == x && !s.emprunts[m].retourne &&
                   s.emprunts[m].livreId == b;
          assert m != k;
          assert t.emprunts[m] == s.emprunts[m];
        }
      }
    }
  }

  /** What the five checks of `emprunter_livre` establish before the loan is made. */
  ghost predicate EmpruntPermis(s: Etat, i: nat, livreId: int, lecteurId: int)
  {
    i < |s.livres| && s.livres[i].id == livreId && s.livres[i].exemplaires > 0 &&
    EstLecteurInscrit(s, lecteurId) && livreId !in s.utilisateurs[lecteurId].livresEmpruntes &&
    |Actifs(s, lecteurId)| < MAXI_PRET_ACTIF
  }

  /** The loan-side invariants after filing the new loan `n` of book `e.livreId` for the
      reader `e.lecteurId`, who gets the book added to its set. */
  lemma AjoutPretConserve(s: Etat, t: Etat, n: int, e: Emprunt)
    requires DetentionsExactes(s) && UnPretParLivre(s) && PlafondRespecte(s)
    requires n !in s.emprunts && t.emprunts == s.emprunts[n := e] && !e.retourne
    requires EstLecteurInscrit(s, e.lecteurId) && |Actifs(s, e.lecteurId)| < MAXI_PRET_ACTIF
    requires e.livreId !in s.utilisateurs[e.lecteurId].livresEmpruntes
    requires t.utilisateurs == s.utilisateurs[e.lecteurId := s.utilisateurs[e.lecteurId].(
               livresEmpruntes := s.utilisateurs[e.lecteurId].livresEmpruntes + {e.livreId})]
    ensures DetentionsExactes(t) && UnPretParLivre(t) && PlafondRespecte(t)
  {
    ActifsApresAjout(s, t, n, e);
    assert DetentionsExactes(t) by {
      forall r | EstLecteurInscrit(t, r)
        ensures t.utilisateurs[r].livresEmpruntes == LivresActifs(t, r)
      {
        assert EstLecteurInscrit(s, r);
      }
    }
    assert UnPretParLivre(t) by {
      forall k | k in s.emprunts && !s.emprunts[k].retourne && s.emprunts[k].lecteurId == e.lecteurId
        ensures s.emprunts[k].livreId != e.livreId
      {
        assert s.emprunts[k].livreId in LivresActifs(s, e.lecteurId);
      }
    }
    assert PlafondRespecte(t) by {
      forall r ensures |Actifs(t, r)| <= MAXI_PRET_ACTIF {
        if r != e.lecteurId {
          assert Actifs(t, r) == Actifs(s, r);
        }
      }
    }
  }

  lemma ApresEmpruntPrets(s: Etat, i: nat, livreId: int, lecteurId: int, maintenant: int)
    requires Inv(s) && EmpruntPermis(s, i, livreId, lecteurId)
    ensures var t := ApresEmprunt(s, i, livreId, lecteurId, maintenant);
      DetentionsExactes(t) && UnPretParLivre(t) && PlafondRespecte(t)
  {
    var t := ApresEmprunt(s, i, livreId, lecteurId, maintenant);
    var n := s.compteurEmprunt;
    assert n !in s.emprunts;
    AjoutPretConserve(s, t, n, NouvelEmprunt(n, livreId, lecteurId, maintenant));
  }

  lemma ApresEmpruntIndex(s: Etat, t: Etat, n: int, e: Emprunt)
    requires IndexExact(s) && RegistreCoherent(s) && n == s.compteurEmprunt
    requires e.id == n && e.Coherent()
    requires t.emprunts == s.emprunts[n := e] && t.compteurEmprunt == n + 1
    requires t.empruntsParLecteur == s.empruntsParLecteur[e.lecteurId := IndexDe(s, e.lecteurId) + {n}]
    ensures RegistreCoherent(t) && IndexExact(t)
  {
    assert n !in s.emprunts;
  }

  /** Replacing a reader's set of held books changes neither ids nor e-mails. */
  lemma NouvelleDetentionConserve(us: map<int, Utilisateur>, r: int, held: set<int>)
    requires AnnuaireCoherent(us) && r in us && us[r].Lecteur?
    ensures AnnuaireCoherent(us[r := us[r].(livresEmpruntes := held)])
  {
  }

  /** One book replaced by a coherent one with the same id. */
  lemma NouveauStockConserve(ls: seq<Livre>, i: nat, l: Livre)
    requires StocksCoherents(ls) && i < |ls| && l.Coherent() && l.id == ls[i].id
    ensures StocksCoherents(ls[i := l])
    ensures forall id :: LivreExiste(ls[i := l], id) <==> LivreExiste(ls, id)
  {
    MemesIds(ls, ls[i := l]);
  }

  lemma ApresEmpruntRegistre(s: Etat, i: nat, livreId: int, lecteurId: int, maintenant: int)
    requires Inv(s) && EmpruntPermis(s, i, livreId, lecteurId)
    ensures var t := ApresEmprunt(s, i, livreId, lecteurId, maintenant);
      StocksCoherents(t.livres) && IdsLivresEmis(t.livres, t.compteurLivre) &&
      AnnuaireCoherent(t.utilisateurs) && RegistreCoherent(t) &&
      IndexExact(t) && PretsActifsValides(t)
  {
    var t := ApresEmprunt(s, i, livreId, lecteurId, maintenant);
    var n := s.compteurEmprunt;
    var e := NouvelEmprunt(n, livreId, lecteurId, maintenant);
    ApresEmpruntIndex(s, t, n, e);
    var l := s.livres[i];
    NouveauStockConserve(s.livres, i, MettreAJourStatut(l.(exemplaires := l.exemplaires - 1)));
    IdsEmisMemesIds(s.livres, t.livres, s.compteurLivre);
    NouvelleDetentionConserve(s.utilisateurs, lecteurId, s.utilisateurs[lecteurId].livresEmpruntes + {livreId});
    ApresEmpruntActifsValides(s, i, livreId, lecteurId, maintenant);
  }

  /** After a loan every active loan still has a reader and a catalogued book. */
  lemma ApresEmpruntActifsValides(s: Etat, i: nat, livreId: int, lecteurId: int, maintenant: int)
    requires PretsActifsValides(s) && EmpruntPermis(s, i, livreId, lecteurId)
    ensures PretsActifsValides(ApresEmprunt(s, i, livreId, lecteurId, maintenant))
  {
    var t := ApresEmprunt(s, i, livreId, lecteurId, maintenant);
    var n := s.compteurEmprunt;
    forall k | k in t.emprunts && !t.emprunts[k].retourne
      ensures EstLecteurInscrit(t, t.emprunts[k].lecteurId) && LivreExiste(t.livres, t.emprunts[k].livreId)
    {
      var b := t.emprunts[k].livreId;
      var j := i;
      if k != n {
        assert t.emprunts[k] == s.emprunts[k];
        j :| 0 <= j < |s.livres| && s.livres[j].id == b;
      }
      assert t.livres[j].id == b;
    }
  }

  /** The successful branch of `Emprunter` keeps the invariant. */
  lemma ApresEmpruntConserve(s: Etat, i: nat, livreId: int, lecteurId: int, maintenant: int)
    requires Inv(s) && EmpruntPermis(s, i, livreId, lecteurId)
    ensures Inv(ApresEmprunt(s, i, livreId, lecteurId, maintenant))
  {
    ApresEmpruntPrets(s, i, livreId, lecteurId, maintenant);
    ApresEmpruntRegistre(s, i, livreId, lecteurId, maintenant);
  }

  lemma EmprunterConserve(s: Etat, livreId: int, lecteurId: int, maintenant: int)
    requires Inv(s)
    ensures Inv(Emprunter(s, livreId, lecteurId, maintenant).0)
  {
    if Emprunter(s, livreId, lecteurId, maintenant).1 == Succes {
      NbActifsIndexesExact(s, lecteurId);
      ApresEmpruntConserve(s, IndiceLivre(s.livres, livreId).value, livreId, lecteurId, maintenant);
    }
  }

  /** The successful branch of `Rendre` keeps the invariant. */
  lemma ApresRetourConserve(s: Etat, empruntId: int, maintenant: int)
    requires Inv(s)
    requires empruntId in s.emprunts && !s.emprunts[empruntId].retourne
    ensures Inv(ApresRetour(s, empruntId, maintenant))
  {
    var t := ApresRetour(s, empruntId, maintenant);
    var e := s.emprunts[empruntId];
    ActifsApresRetour(s, t, empruntId, maintenant);
    MemesIds(s.livres, t.livres);
    IdsEmisMemesIds(s.livres, t.livres, s.compteurLivre);
    assert StocksCoherents(t.livres);
    assert AnnuaireCoherent(t.utilisateurs);
    assert RegistreCoherent(t);
    assert IndexExact(t);
    assert PretsActifsValides(t);
    assert DetentionsExactes(t);
    assert UnPretParLivre(t);
    assert PlafondRespecte(t) by {
      assert |Actifs(t, e.lecteurId)| <= |Actifs(s, e.lecteurId)|;
    }
  }

  lemma RendreConserve(s: Etat, empruntId: int, maintenant: int)
    requires Inv(s)
    ensures Inv(Rendre(s, empruntId, maintenant).0)
  {
    if Rendre(s, empruntId, maintenant).1 == Succes {
      ApresRetourConserve(s, empruntId, maintenant);
    }
  }
}
