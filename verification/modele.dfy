/** The library's entities: books (`Livre`), users (`Lecteur`, `Bibliothecaire`)
    and loans (`Emprunt`), with the loan's overdue computations.
    Time is a whole number of seconds; the caller passes the current time. */
module Modele {

  datatype Option<+T> = None | Some(value: T)

  /** `DUREE_EMPRUNT_MAXI`: loan length in days. */
  const DUREE_EMPRUNT_MAXI: int := 14
  /** `MAXI_PRET_ACTIF`: the most loans a reader may hold at once. */
  const MAXI_PRET_ACTIF: int := 3
  const SECONDES_PAR_JOUR: int := 86400
  /** `timedelta(days=DUREE_EMPRUNT_MAXI)` in seconds. */
  const DUREE_EMPRUNT: int := DUREE_EMPRUNT_MAXI * SECONDES_PAR_JOUR

  // ----- Livre -----

  /** The two values of `Livre.statut`. */
  datatype Statut = Disponible | Emprunte

  /** The text stored in `statut`, which searches compare against. */
  function Libelle(st: Statut): (r: string)
    ensures r == "disponible" <==> st == Disponible
  {
    match st
    case Disponible => "disponible"
    case Emprunte => "emprunté"
  }

  /** The status `mettre_a_jour_statut` derives from a stock. */
  function StatutPour(exemplaires: int): (st: Statut)
    ensures st == Disponible <==> exemplaires > 0
  {
    if exemplaires > 0 then Disponible else Emprunte
  }

  datatype Livre = Livre(id: int, titre: string, auteur: string, categorie: string,
                         exemplaires: int, statut: Statut)
  {
    /** Stock is never negative and the status agrees with it. */
    predicate Coherent()
    {
      exemplaires >= 0 && statut == StatutPour(exemplaires)
    }
  }

  /** `Livre.__init__` given the id the class counter hands out:
      a negative stock is clamped to zero and the status is derived. */
  function NouveauLivre(id: int, titre: string, auteur: string, categorie: string,
                        exemplaires: int): (l: Livre)
    ensures l.Coherent()
    ensures l.id == id && l.titre == titre && l.auteur == auteur && l.categorie == categorie
    ensures exemplaires >= 0 ==> l.exemplaires == exemplaires
    ensures exemplaires < 0 ==> l.exemplaires == 0
  {
    var n := if exemplaires > 0 then exemplaires else 0;
    Livre(id, titre, auteur, categorie, n, StatutPour(n))
  }

  /** `Livre.mettre_a_jour_statut`: only the status changes, and it then agrees with the stock. */
  function MettreAJourStatut(l: Livre): (r: Livre)
    ensures r.statut == Disponible <==> r.exemplaires > 0
    ensures r.(statut := l.statut) == l
    ensures l.exemplaires >= 0 ==> r.Coherent()
  {
    l.(statut := StatutPour(l.exemplaires))
  }

  // ----- Utilisateur -----

  /** `Utilisateur` and its two subclasses; a reader also holds the ids of the books
      it currently has out (`livres_empruntes`). */
  datatype Utilisateur =
    | Lecteur(id: int, nom: string, email: string, livresEmpruntes: set<int>)
    | Bibliothecaire(id: int, nom: string, email: string)

  /** `Bibliotheque.est_bibliothecaire`. */
  predicate EstBibliothecaire(u: Utilisateur)
  {
    u.Bibliothecaire?
  }

  // ----- Emprunt -----

  datatype Emprunt = Emprunt(id: int, livreId: int, lecteurId: int,
                             dateEmprunt: int, dateRetourPrevue: int,
                             dateRetourEffective: Option<int>, retourne: bool)
  {
    /** A return date is recorded exactly when the loan is returned, and the due date
        is the borrow date plus the loan length. */
    predicate Coherent()
    {
      (retourne <==> dateRetourEffective.Some?) &&
      dateRetourPrevue == dateEmprunt + DUREE_EMPRUNT
    }
  }

  /** `Emprunt.__init__` at time `maintenant`, given the id the class counter hands out. */
  function NouvelEmprunt(id: int, livreId: int, lecteurId: int, maintenant: int): (e: Emprunt)
    ensures e.Coherent() && !e.retourne && e.dateRetourEffective == None
    ensures e.id == id && e.livreId == livreId && e.lecteurId == lecteurId
    ensures e.dateEmprunt == maintenant
    ensures e.dateRetourPrevue - e.dateEmprunt == DUREE_EMPRUNT_MAXI * SECONDES_PAR_JOUR
  {
    Emprunt(id, livreId, lecteurId, maintenant, maintenant + DUREE_EMPRUNT, None, false)
  }

  /** `Emprunt.rendre` at time `maintenant`: only the two return fields change. */
  function Rendu(e: Emprunt, maintenant: int): (r: Emprunt)
    ensures r.retourne && r.dateRetourEffective == Some(maintenant)
    ensures r.(dateRetourEffective := e.dateRetourEffective, retourne := e.retourne) == e
    ensures e.Coherent() ==> r.Coherent()
  {
    e.(dateRetourEffective := Some(maintenant), retourne := true)
  }

  /** A returned loan must carry its return date, or the comparisons below fail. */
  predicate DateConnue(e: Emprunt)
  {
    e.retourne ==> e.dateRetourEffective.Some?
  }

  /** The date an overdue check compares with the due date: now while the loan is
      out, the actual return date once it is back. */
  function DateReference(e: Emprunt, maintenant: int): int
    requires DateConnue(e)
  {
    if e.retourne then e.dateRetourEffective.value else maintenant
  }

  /** `Emprunt.en_retard`. */
  function EnRetard(e: Emprunt, maintenant: int): (b: bool)
    requires DateConnue(e)
    ensures b <==> DateReference(e, maintenant) > e.dateRetourPrevue
    ensures !e.retourne ==> (b <==> maintenant > e.dateRetourPrevue)
  {
    if !e.retourne then maintenant > e.dateRetourPrevue
    else e.dateRetourEffective.value > e.dateRetourPrevue
  }

  /** `Emprunt.jours_de_retard`: whole days past the due date, `timedelta.days`
      being the floor of the difference in days, and never negative. */
  function JoursDeRetard(e: Emprunt, maintenant: int): (j: int)
    requires DateConnue(e)
    ensures j >= 0
    ensures j == 0 <==> DateReference(e, maintenant) - e.dateRetourPrevue < SECONDES_PAR_JOUR
    ensures var d := DateReference(e, maintenant) - e.dateRetourPrevue;
            d >= 0 ==> j * SECONDES_PAR_JOUR <= d < (j + 1) * SECONDES_PAR_JOUR
  {
    var d := if !e.retourne then maintenant - e.dateRetourPrevue
             else e.dateRetourEffective.value - e.dateRetourPrevue;
    var jours := d / SECONDES_PAR_JOUR;
    if jours > 0 then jours else 0
  }

  // ----- lemmas -----

  /** A non-empty set has an element to pick. */
  lemma NonVide(s: set<int>)
    requires s != {}
    ensures exists x :: x in s
  {
    if forall x :: x !in s {
      assert false;
    }
  }

  /** A loan with days of delay is late, and a late loan either has days of delay or
      is late by less than one day (then with zero days). */
  lemma RetardEtJours(e: Emprunt, maintenant: int)
    requires DateConnue(e)
    ensures JoursDeRetard(e, maintenant) > 0 ==> EnRetard(e, maintenant)
    ensures EnRetard(e, maintenant) <==>
      JoursDeRetard(e, maintenant) > 0 ||
      0 < DateReference(e, maintenant) - e.dateRetourPrevue < SECONDES_PAR_JOUR
  {
  }

  /** A loan made at `t` and returned twenty days later is late by six days,
      whatever the current time. */
  lemma RetourApresVingtJours(id: int, livreId: int, lecteurId: int, t: int, maintenant: int)
    ensures var e := Rendu(NouvelEmprunt(id, livreId, lecteurId, t), t + 20 * SECONDES_PAR_JOUR);
            EnRetard(e, maintenant) && JoursDeRetard(e, maintenant) == 6
  {
    var e := Rendu(NouvelEmprunt(id, livreId, lecteurId, t), t + 20 * SECONDES_PAR_JOUR);
    assert DateReference(e, maintenant) - e.dateRetourPrevue == 6 * SECONDES_PAR_JOUR;
  }

}
