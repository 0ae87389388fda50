/** Properties of the library that relate several operations or follow from the
    invariant: borrowing then returning, the loan cap, duplicates in the catalogue,
    searches, statistics, and the usage scenarios of the library. */
module Proprietes {
  import opened Texte
  import opened Modele
  import opened Regles
  import Conservation

  // ----- borrow and return -----

  /** Returning the loan just made on the book at position `i` puts back the copy,
      so the book list is as before. */
  lemma RetourRestaureLivres(s: Etat, i: nat, livreId: int, lecteurId: int, t1: int, t2: int)
    requires IndiceLivre(s.livres, livreId) == Some(i) && s.livres[i].Coherent()
    requires EstLecteurInscrit(s, lecteurId) && s.compteurEmprunt !in s.emprunts
    ensures var s1 := ApresEmprunt(s, i, livreId, lecteurId, t1);
      s.compteurEmprunt in s1.emprunts &&
      ApresRetour(s1, s.compteurEmprunt, t2).livres == s.livres
  {
    var s1 := ApresEmprunt(s, i, livreId, lecteurId, t1);
    Conservation.MemesIds(s.livres, s1.livres);
    assert IndiceLivre(s1.livres, livreId) == IndiceLivre(s.livres, livreId);
    var s2 := ApresRetour(s1, s.compteurEmprunt, t2);
    var l := s.livres[i];
    assert s1.livres[i] == l.(exemplaires := l.exemplaires - 1, statut := StatutPour(l.exemplaires - 1));
    assert s2.livres[i] == l.(statut := StatutPour(l.exemplaires));
    assert s2.livres == s.livres;
  }

  /** Returning the loan just made takes the book out of the reader's set again, so
      the directory is as before. */
  lemma RetourRestaureLecteurs(s: Etat, i: nat, livreId: int, lecteurId: int, t1: int, t2: int)
    requires i < |s.livres| && EstLecteurInscrit(s, lecteurId) && s.compteurEmprunt !in s.emprunts
    requires livreId !in s.utilisateurs[lecteurId].livresEmpruntes
    ensures var s1 := ApresEmprunt(s, i, livreId, lecteurId, t1);
      s.compteurEmprunt in s1.emprunts &&
      ApresRetour(s1, s.compteurEmprunt, t2).utilisateurs == s.utilisateurs
  {
    var s1 := ApresEmprunt(s, i, livreId, lecteurId, t1);
    var s2 := ApresRetour(s1, s.compteurEmprunt, t2);
    var lecteur := s.utilisateurs[lecteurId];
    assert lecteur.livresEmpruntes + {livreId} - {livreId} == lecteur.livresEmpruntes;
    assert s2.utilisateurs[lecteurId] == lecteur;
    assert s2.utilisateurs == s.utilisateurs;
  }

  /** Borrowing a book and returning that loan gives back the catalogue and the
      directory exactly as they were: the stock, the status and the reader's set. */
  lemma EmprunterPuisRendre(s: Etat, livreId: int, lecteurId: int, t1: int, t2: int)
    requires Inv(s) && Emprunter(s, livreId, lecteurId, t1).1 == Succes
    ensures var s1 := Emprunter(s, livreId, lecteurId, t1).0;
            var n := s.compteurEmprunt;
      n in s1.emprunts && Rendre(s1, n, t2).1 == Succes &&
      Rendre(s1, n, t2).0.livres == s.livres &&
      Rendre(s1, n, t2).0.utilisateurs == s.utilisateurs
  {
    var i := IndiceLivre(s.livres, livreId).value;
    assert s.compteurEmprunt !in s.emprunts;
    assert s.livres[i].Coherent();
    RetourRestaureLivres(s, i, livreId, lecteurId, t1, t2);
    RetourRestaureLecteurs(s, i, livreId, lecteurId, t1, t2);
  }

  /** A loan that has been returned cannot be returned again, and the refusal changes nothing. */
  lemma SecondRetourRefuse(s: Etat, empruntId: int, t1: int, t2: int)
    requires Rendre(s, empruntId, t1).1 == Succes
    ensures var s1 := Rendre(s, empruntId, t1).0;
            Rendre(s1, empruntId, t2) == (s1, Echec(DejaRetourne))
  {
  }

  /** A reader with `MAXI_PRET_ACTIF` loans out cannot borrow, whatever the book; when
      the first four checks pass the refusal is `LimiteAtteinte`. */
  lemma EmpruntAuDelaDuPlafond(s: Etat, livreId: int, lecteurId: int, maintenant: int)
    requires Inv(s) && |Actifs(s, lecteurId)| >= MAXI_PRET_ACTIF
    ensures Emprunter(s, livreId, lecteurId, maintenant).1 != Succes
    ensures Emprunter(s, livreId, lecteurId, maintenant).0 == s
    ensures (EstLecteurInscrit(s, lecteurId) && LivreExiste(s.livres, livreId) &&
             s.livres[IndiceLivre(s.livres, livreId).value].exemplaires > 0 &&
             livreId !in s.utilisateurs[lecteurId].livresEmpruntes) ==>
            Emprunter(s, livreId, lecteurId, maintenant).1 == Echec(LimiteAtteinte)
  {
    Conservation.NbActifsIndexesExact(s, lecteurId);
  }

  /** Distinct keys with distinct images have as many images as keys. */
  lemma {:induction false} CardinalImageInjective(ks: set<int>, f: int -> int)
    requires forall a, b :: a in ks && b in ks && a != b ==> f(a) != f(b)
    ensures |set k | k in ks :: f(k)| == |ks|
    decreases |ks|
  {
    if ks != {} {
      NonVide(ks);
      var k :| k in ks;
      var reste := ks - {k};
      CardinalImageInjective(reste, f);
      assert (set x | x in ks :: f(x)) == (set x | x in reste :: f(x)) + {f(k)};
      assert f(k) !in (set x | x in reste :: f(x));
    }
  }

  /** Under the invariant a reader holds as many books as it has loans out, so never
      more than `MAXI_PRET_ACTIF`. */
  lemma DetenusCommeActifs(s: Etat, r: int)
    requires Inv(s) && EstLecteurInscrit(s, r)
    ensures |s.utilisateurs[r].livresEmpruntes| == |Actifs(s, r)| <= MAXI_PRET_ACTIF
  {
    var f := k => if k in s.emprunts then s.emprunts[k].livreId else 0;
    forall b ensures b in LivresActifs(s, r) <==> b in set k | k in Actifs(s, r) :: f(k) {
      if b in LivresActifs(s, r) {
        var k :| k in s.emprunts && s.emprunts[k].lecteurId == r && !s.emprunts[k].retourne &&
                 s.emprunts[k].livreId == b;
        assert k in Actifs(s, r) && f(k) == b;
      }
    }
    assert LivresActifs(s, r) == set k | k in Actifs(s, r) :: f(k);
    CardinalImageInjective(Actifs(s, r), f);
  }

  // ----- catalogue -----

  /** No two books of the list are the same work. */
  ghost predicate SansDoublon(ls: seq<Livre>)
  {
    forall i, j :: 0 <= i < j < |ls| ==> !MemeOuvrage(ls[i], ls[j])
  }

  /** `ajouter_livre` never creates a duplicate. */
  lemma AjoutSansDoublon(s: Etat, livre: Livre, acteur: Utilisateur)
    requires SansDoublon(s.livres)
    ensures SansDoublon(AjouterLivre(s, livre, acteur).0.livres)
  {
    var ls := AjouterLivre(s, livre, acteur).0.livres;
    if AjouterLivre(s, livre, acteur).1 == Succes {
      forall i, j | 0 <= i < j < |ls| ensures !MemeOuvrage(ls[i], ls[j]) {
        if j == |s.livres| {
          assert ls[i] == s.livres[i] && ls[j] == livre;
        } else {
          assert ls[i] == s.livres[i] && ls[j] == s.livres[j];
        }
      }
    }
  }

  /** A book built and added takes an id no catalogued book has, and can then be found
      under that id. */
  lemma NouveauLivreIdFrais(s: Etat, titre: string, auteur: string, categorie: string,
                            exemplaires: int, acteur: Utilisateur)
    requires Inv(s)
    requires AjouterNouveauLivre(s, titre, auteur, categorie, exemplaires, acteur).1 == Succes
    ensures !LivreExiste(s.livres, s.compteurLivre)
    ensures var t := AjouterNouveauLivre(s, titre, auteur, categorie, exemplaires, acteur).0;
      IndiceLivre(t.livres, s.compteurLivre) == Some(|s.livres|)
  {
    var t := AjouterNouveauLivre(s, titre, auteur, categorie, exemplaires, acteur).0;
    Conservation.AjouterNouveauLivreConserve(s, titre, auteur, categorie, exemplaires, acteur);
    assert t.livres[|s.livres|].id == s.compteurLivre;
  }

  /** Under the invariant a deleted book is gone: no other catalogued book has its id. */
  lemma SuppressionRetireLeLivre(s: Etat, livreId: int, acteur: Utilisateur, reponse: string)
    requires Inv(s)
    requires SupprimerLivre(s, livreId, acteur, reponse).1 == Succes
    ensures var t := SupprimerLivre(s, livreId, acteur, reponse).0;
      |t.livres| == |s.livres| - 1 && !LivreExiste(t.livres, livreId)
  {
    Conservation.RetraitGardeLesIds(s.livres, IndiceLivre(s.livres, livreId).value, s.compteurLivre);
  }

  /** `modifier_livre` does not look for duplicates: renaming a book after another
      one is accepted and leaves two copies of the same work in the catalogue. */
  lemma ModificationPeutDoublonner(acteur: Utilisateur)
    requires EstBibliothecaire(acteur)
    ensures var s := Initial().(livres := [NouveauLivre(1, "A", "X", "c", 1),
                                          NouveauLivre(2, "B", "X", "c", 1)]);
            var ch := Champs(Some("A"), None, None, None);
            SansDoublon(s.livres) &&
            ModifierLivre(s, 2, acteur, ch).1 == Succes &&
            !SansDoublon(ModifierLivre(s, 2, acteur, ch).0.livres)
  {
    var s := Initial().(livres := [NouveauLivre(1, "A", "X", "c", 1),
                                  NouveauLivre(2, "B", "X", "c", 1)]);
    var ch := Champs(Some("A"), None, None, None);
    assert Nettoyer("A") == "a" && Nettoyer("B") == "b";
    assert IndiceLivre(s.livres, 2) == Some(1);
    var ls := ModifierLivre(s, 2, acteur, ch).0.livres;
    assert MemeOuvrage(ls[0], ls[1]);
  }

  /** A book whose title differs from a catalogued one only in case and surrounding
      whitespace, and whose author differs only in case, is refused as a duplicate. */
  lemma DoublonMalgreCasseEtEspaces(s: Etat, livre: Livre, acteur: Utilisateur, j: int,
                                    avant: string, titre: string, apres: string)
    requires EstBibliothecaire(acteur) && 0 <= j < |s.livres|
    requires ToutEspace(avant) && ToutEspace(apres) && livre.titre == avant + titre + apres
    requires EnMinuscules(titre) == EnMinuscules(s.livres[j].titre)
    requires EnMinuscules(livre.auteur) == EnMinuscules(s.livres[j].auteur)
    ensures AjouterLivre(s, livre, acteur) == (s, Echec(LivreExisteDeja))
  {
    NettoyerIgnoreEspacesEntourants(avant, titre, apres);
    NettoyerInsensibleCasse(titre, s.livres[j].titre);
    NettoyerInsensibleCasse(livre.auteur, s.livres[j].auteur);
    assert MemeOuvrage(s.livres[j], livre);
  }

  // ----- search -----

  /** A coherent book matches `disponibilite` = `disponible` exactly when it is in stock. */
  lemma CorrespondDisponible(l: Livre)
    requires l.Coherent()
    ensures Correspond(l, "disponibilite", "disponible") <==> l.exemplaires > 0
  {
    assert Correspond(l, "disponibilite", "disponible") <==> "disponible" == Nettoyer(Libelle(l.statut));
    if l.statut == Disponible {
      MotDisponible();
    } else {
      MotEmprunte();
    }
  }

  lemma FiltrerDisponibles(ls: seq<Livre>)
    requires StocksCoherents(ls)
    ensures forall l :: l in Filtrer(ls, "disponibilite", "disponible") <==> l in ls && l.exemplaires > 0
  {
    forall l | l in ls
      ensures Correspond(l, "disponibilite", "disponible") <==> l.exemplaires > 0
    {
      var j :| 0 <= j < |ls| && ls[j] == l;
      CorrespondDisponible(l);
    }
  }

  lemma RechercheDisponibles(s: Etat)
    requires StocksCoherents(s.livres)
    ensures forall l :: l in Rechercher(s, "disponibilite", "disponible") <==>
                        l in s.livres && l.exemplaires > 0
  {
    MotDisponibilite();
    MotDisponible();
    assert Rechercher(s, "disponibilite", "disponible") == Filtrer(s.livres, "disponibilite", "disponible");
    FiltrerDisponibles(s.livres);
  }

  /** Searching by title finds exactly the books whose normalised title contains the
      normalised value. */
  lemma RechercheParTitre(s: Etat, valeur: string)
    ensures forall l :: l in Rechercher(s, "titre", valeur) <==>
                        l in s.livres && EstSousChaine(Nettoyer(valeur), Nettoyer(l.titre))
  {
    MotTitre();
  }

  // ----- statistics -----

  /** The active loans of the readers in `rs`. */
  function ActifsDe(s: Etat, rs: set<int>): set<int>
  {
    set k | k in s.emprunts && !s.emprunts[k].retourne && s.emprunts[k].lecteurId in rs
  }

  lemma {:induction false} ActifsDeBornes(s: Etat, rs: set<int>)
    requires PlafondRespecte(s)
    ensures |ActifsDe(s, rs)| <= MAXI_PRET_ACTIF * |rs|
    decreases |rs|
  {
    if rs != {} {
      NonVide(rs);
      var r :| r in rs;
      ActifsDeBornes(s, rs - {r});
      assert ActifsDe(s, rs) == ActifsDe(s, rs - {r}) + Actifs(s, r);
    } else {
      assert ActifsDe(s, rs) == {};
    }
  }

  /** Under the invariant there are at most `MAXI_PRET_ACTIF` active loans per reader. */
  lemma BilanPlafond(s: Etat, maintenant: int)
    requires Inv(s)
    ensures BilanDe(s, maintenant).empruntsActifs <= MAXI_PRET_ACTIF * BilanDe(s, maintenant).lecteurs
  {
    forall k ensures k in EmpruntsEnCours(s) <==> k in ActifsDe(s, Lecteurs(s)) {
      if k in EmpruntsEnCours(s) {
        assert EstLecteurInscrit(s, s.emprunts[k].lecteurId);
      }
    }
    assert EmpruntsEnCours(s) == ActifsDe(s, Lecteurs(s));
    ActifsDeBornes(s, Lecteurs(s));
  }

  // ----- scenarios -----

  /** A book with one copy: once reader `a` has it, its stock is 0 and it is marked
      on loan, and both `a` and any other reader are then refused for lack of stock —
      the stock check comes before the already-borrowed check. */
  lemma ScenarioExemplaireUnique(s: Etat, livreId: int, a: int, b: int, t1: int, t2: int, t3: int)
    requires Inv(s) && EstLecteurInscrit(s, a) && EstLecteurInscrit(s, b)
    requires LivreExiste(s.livres, livreId)
    requires s.livres[IndiceLivre(s.livres, livreId).value].exemplaires == 1
    requires livreId !in s.utilisateurs[a].livresEmpruntes && |Actifs(s, a)| < MAXI_PRET_ACTIF
    ensures var (s1, r1) := Emprunter(s, livreId, a, t1);
            var i := IndiceLivre(s.livres, livreId).value;
      r1 == Succes &&
      s1.livres[i].exemplaires == 0 && s1.livres[i].statut == Emprunte &&
      Emprunter(s1, livreId, a, t2) == (s1, Echec(AucunExemplaire)) &&
      Emprunter(s1, livreId, b, t3) == (s1, Echec(AucunExemplaire))
  {
    Conservation.NbActifsIndexesExact(s, a);
    var i := IndiceLivre(s.livres, livreId).value;
    var s1 := ApresEmprunt(s, i, livreId, a, t1);
    Conservation.MemesIds(s.livres, s1.livres);
    assert IndiceLivre(s1.livres, livreId) == Some(i);
  }

  /** Once a book has been lent it cannot be deleted: the deletion is refused with
      `LivreEmprunte` and the book stays in the catalogue. */
  lemma ScenarioSuppressionLivreEmprunte(s: Etat, livreId: int, lecteurId: int, maintenant: int,
                                         acteur: Utilisateur, reponse: string)
    requires Inv(s) && Emprunter(s, livreId, lecteurId, maintenant).1 == Succes
    requires EstBibliothecaire(acteur)
    ensures var s1 := Emprunter(s, livreId, lecteurId, maintenant).0;
      SupprimerLivre(s1, livreId, acteur, reponse) == (s1, Echec(LivreEmprunte)) &&
      LivreExiste(s1.livres, livreId)
  {
    var i := IndiceLivre(s.livres, livreId).value;
    var s1 := ApresEmprunt(s, i, livreId, lecteurId, maintenant);
    Conservation.MemesIds(s.livres, s1.livres);
    var n := s.compteurEmprunt;
    assert s1.emprunts[n].livreId == livreId && !s1.emprunts[n].retourne;
  }
}
