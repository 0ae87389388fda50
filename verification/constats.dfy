/** `emprunter_livre` (Projet_V2.py line 364) and `statistiques` (lines 477 and 483)
    read a loan attribute `est_retourne` that `Emprunt` never sets: a loan only has
    `retourne`. Reading it raises `AttributeError`. This module models the two
    operations as written, with `None` for the raised exception, and shows inputs
    where they fail while `Regles.Emprunter` and `Regles.BilanDe`, which read
    `retourne`, succeed. */
module Constats {
  import opened Texte
  import opened Modele
  import opened Regles
  import Conservation

  /** The active-loan loop of `emprunter_livre` as written: the first loan of the
      reader's index found in `emprunts` raises, so the count is 0 or nothing. */
  function NbActifsTelQuEcrit(s: Etat, r: int): (o: Option<nat>)
    ensures o.Some? ==> o.value == 0
  {
    if exists k :: k in IndexDe(s, r) && k in s.emprunts then None else Some(0)
  }

  /** `emprunter_livre` as written: `None` when it raises. */
  function EmprunterTelQuEcrit(s: Etat, livreId: int, lecteurId: int, maintenant: int): (o: Option<(Etat, Resultat)>)
    ensures o.None? ==>
      EstLecteurInscrit(s, lecteurId) && LivreExiste(s.livres, livreId) &&
      s.livres[IndiceLivre(s.livres, livreId).value].exemplaires > 0 &&
      livreId !in s.utilisateurs[lecteurId].livresEmpruntes
    ensures o.Some? && o.value.1.Echec? ==> o.value.0 == s
  {
    if !EstLecteurInscrit(s, lecteurId) then Some((s, Echec(UtilisateurNonValide)))
    else match IndiceLivre(s.livres, livreId)
      case None => Some((s, Echec(LivreIntrouvable)))
      case Some(i) =>
        if s.livres[i].exemplaires <= 0 then Some((s, Echec(AucunExemplaire)))
        else if livreId in s.utilisateurs[lecteurId].livresEmpruntes then Some((s, Echec(DejaEmprunte)))
        else match NbActifsTelQuEcrit(s, lecteurId)
          case None => None
          case Some(n) =>
            if n >= MAXI_PRET_ACTIF then Some((s, Echec(LimiteAtteinte)))
            else Some((ApresEmprunt(s, i, livreId, lecteurId, maintenant), Succes))
  }

  /** Under the invariant the as-written count raises exactly when the reader has
      ever borrowed anything, and otherwise the reader has no active loan. */
  lemma NbActifsTelQuEcritLeve(s: Etat, r: int)
    requires IndexExact(s)
    ensures NbActifsTelQuEcrit(s, r).None? <==> exists k :: k in s.emprunts && s.emprunts[k].lecteurId == r
    ensures NbActifsTelQuEcrit(s, r).Some? ==> NbActifsIndexes(s, r) == 0
  {
    if exists k :: k in s.emprunts && s.emprunts[k].lecteurId == r {
      var k :| k in s.emprunts && s.emprunts[k].lecteurId == r;
      assert k in IndexDe(s, r);
    } else {
      Conservation.NbActifsIndexesExact(s, r);
      assert Actifs(s, r) == {};
    }
  }

  /** As written, a borrow that passes the first four checks raises exactly when the
      reader has ever borrowed anything, returned or not; when it does not raise it
      agrees with `Regles.Emprunter`. */
  lemma EmprunterTelQuEcritLeve(s: Etat, livreId: int, lecteurId: int, maintenant: int)
    requires IndexExact(s)
    ensures EmprunterTelQuEcrit(s, livreId, lecteurId, maintenant).None? <==>
      EstLecteurInscrit(s, lecteurId) && LivreExiste(s.livres, livreId) &&
      s.livres[IndiceLivre(s.livres, livreId).value].exemplaires > 0 &&
      livreId !in s.utilisateurs[lecteurId].livresEmpruntes &&
      exists k :: k in s.emprunts && s.emprunts[k].lecteurId == lecteurId
    ensures EmprunterTelQuEcrit(s, livreId, lecteurId, maintenant).Some? ==>
      EmprunterTelQuEcrit(s, livreId, lecteurId, maintenant).value == Emprunter(s, livreId, lecteurId, maintenant)
  {
    NbActifsTelQuEcritLeve(s, lecteurId);
  }

  /** A borrow that passes the five checks is accepted. */
  lemma EmpruntAccepte(s: Etat, a: int, r: int, t1: int)
    requires IndexExact(s) && EstLecteurInscrit(s, r) && |Actifs(s, r)| < MAXI_PRET_ACTIF
    requires LivreExiste(s.livres, a) && s.livres[IndiceLivre(s.livres, a).value].exemplaires > 0
    requires a !in s.utilisateurs[r].livresEmpruntes
    ensures Emprunter(s, a, r, t1) == (ApresEmprunt(s, IndiceLivre(s.livres, a).value, a, r, t1), Succes)
  {
    Conservation.NbActifsIndexesExact(s, r);
  }

  /** Lending book `a` leaves any other book `b` where and as it was, and leaves it
      out of the reader's set if it was. */
  lemma AutreLivreIntact(s: Etat, i: nat, a: int, b: int, r: int, t1: int)
    requires i < |s.livres| && s.livres[i].id == a && a != b && EstLecteurInscrit(s, r)
    requires LivreExiste(s.livres, b)
    ensures var s1 := ApresEmprunt(s, i, a, r, t1);
      var j := IndiceLivre(s.livres, b).value;
      IndiceLivre(s1.livres, b) == Some(j) && s1.livres[j] == s.livres[j] &&
      (b in s1.utilisateurs[r].livresEmpruntes <==> b in s.utilisateurs[r].livresEmpruntes)
  {
    var s1 := ApresEmprunt(s, i, a, r, t1);
    Conservation.MemesIds(s.livres, s1.livres);
  }

  /** After a borrow the reader has one more active loan, the loan is on record, and
      the index stays exact. */
  lemma PretEnregistre(s: Etat, i: nat, a: int, r: int, t1: int)
    requires IndexExact(s) && RegistreCoherent(s) && i < |s.livres| && EstLecteurInscrit(s, r)
    ensures var s1 := ApresEmprunt(s, i, a, r, t1);
      IndexExact(s1) && |Actifs(s1, r)| == |Actifs(s, r)| + 1 &&
      exists k :: k in s1.emprunts && s1.emprunts[k].lecteurId == r
  {
    var s1 := ApresEmprunt(s, i, a, r, t1);
    var n := s.compteurEmprunt;
    assert n !in s.emprunts && s1.emprunts[n].lecteurId == r;
    Conservation.ActifsApresAjout(s, s1, n, s1.emprunts[n]);
    Conservation.ApresEmpruntIndex(s, s1, n, s1.emprunts[n]);
  }

  /** A reader with at most one active loan borrows a book, then another book that
      was also available: as written the second borrow raises, while the model lets
      both through, the reader then holding at most three loans. */
  lemma SecondEmpruntLeve(s: Etat, a: int, b: int, r: int, t1: int, t2: int)
    requires IndexExact(s) && RegistreCoherent(s) && EstLecteurInscrit(s, r)
    requires |Actifs(s, r)| < MAXI_PRET_ACTIF - 1
    requires LivreExiste(s.livres, a) && s.livres[IndiceLivre(s.livres, a).value].exemplaires > 0
    requires LivreExiste(s.livres, b) && s.livres[IndiceLivre(s.livres, b).value].exemplaires > 0
    requires a != b && a !in s.utilisateurs[r].livresEmpruntes && b !in s.utilisateurs[r].livresEmpruntes
    ensures Emprunter(s, a, r, t1).1 == Succes
    ensures var s1 := Emprunter(s, a, r, t1).0;
      EmprunterTelQuEcrit(s1, b, r, t2).None? && Emprunter(s1, b, r, t2).1 == Succes
  {
    var i := IndiceLivre(s.livres, a).value;
    EmpruntAccepte(s, a, r, t1);
    AutreLivreIntact(s, i, a, b, r, t1);
    PretEnregistre(s, i, a, r, t1);
    var s1 := ApresEmprunt(s, i, a, r, t1);
    Conservation.NbActifsIndexesExact(s1, r);
    EmprunterTelQuEcritLeve(s1, b, r, t2);
  }

  /** `statistiques` as written: the active-loan loop raises on the first loan. */
  function BilanTelQuEcrit(s: Etat, maintenant: int): (o: Option<Bilan>)
    ensures o.None? <==> |s.emprunts| > 0
    ensures o.Some? ==> o.value.empruntsActifs == 0 && o.value.empruntsEnRetard == 0
  {
    if s.emprunts != map[] then None
    else Some(BilanDe(s, maintenant))
  }

  /** After any successful borrow, `statistiques` as written raises, while the model
      reports at least that loan as active. */
  lemma StatistiquesLeventApresEmprunt(s: Etat, livreId: int, lecteurId: int, t1: int, t2: int)
    requires Emprunter(s, livreId, lecteurId, t1).1 == Succes
    ensures var s1 := Emprunter(s, livreId, lecteurId, t1).0;
      BilanTelQuEcrit(s1, t2).None? && BilanDe(s1, t2).empruntsActifs >= 1
  {
    var s1 := Emprunter(s, livreId, lecteurId, t1).0;
    var n := s.compteurEmprunt;
    assert n in EmpruntsEnCours(s1);
  }
}
