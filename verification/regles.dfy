/** The library aggregate (`Bibliotheque`) as a value: its four stores, the two id
    counters, the invariants that tie them together, and every operation as a
    function from the state before to the state after and the outcome. */
module Regles {
  import opened Texte
  import opened Modele

  /** Why an operation refused; each reason is one of the messages the source prints
      before returning `False`. */
  datatype Raison =
    | AccesRefuse          // only a librarian may change the catalogue
    | LivreExisteDeja      // same normalised title and author
    | LivreIntrouvable
    | LivreEmprunte        // a book still on loan cannot be deleted
    | SuppressionAnnulee   // the deletion was not confirmed
    | IdDejaUtilise
    | EmailDejaUtilise
    | UtilisateurNonValide // the borrower is not a reader
    | AucunExemplaire
    | DejaEmprunte         // the reader already holds this book
    | LimiteAtteinte       // the reader already has MAXI_PRET_ACTIF loans out
    | EmpruntIntrouvable
    | DejaRetourne

  /** `True`, or `False` with the reason. */
  datatype Resultat = Succes | Echec(raison: Raison)

  /** The state of a `Bibliotheque`: the book list, the user dictionary, the loan
      dictionary, the per-reader loan index, and the next book and loan ids. */
  datatype Etat = Etat(livres: seq<Livre>,
                       utilisateurs: map<int, Utilisateur>,
                       emprunts: map<int, Emprunt>,
                       empruntsParLecteur: map<int, set<int>>,
                       compteurLivre: int,
                       compteurEmprunt: int)

  /** The fields `modifier_livre` may be given; absent ones are left alone. */
  datatype Champs = Champs(titre: Option<string>, auteur: Option<string>,
                           categorie: Option<string>, exemplaires: Option<int>)

  // ----- queries -----

  predicate LivreExiste(ls: seq<Livre>, id: int)
  {
    exists j :: 0 <= j < |ls| && ls[j].id == id
  }

  /** `_trouver_livre_par_id`: the position of the first book with this id. */
  function IndiceLivre(ls: seq<Livre>, id: int): (r: Option<nat>)
    ensures r.Some? <==> LivreExiste(ls, id)
    ensures r.Some? ==> r.value < |ls| && ls[r.value].id == id &&
                        forall j :: 0 <= j < r.value ==> ls[j].id != id
  {
    if |ls| == 0 then None
    else if ls[0].id == id then Some(0)
    else match IndiceLivre(ls[1..], id)
      case None => None
      case Some(k) => Some(k + 1)
  }

  predicate EstLecteurInscrit(s: Etat, r: int)
  {
    r in s.utilisateurs && s.utilisateurs[r].Lecteur?
  }

  /** `emprunts_par_lecteur.get(lecteur_id, set())`. */
  function IndexDe(s: Etat, r: int): set<int>
  {
    if r in s.empruntsParLecteur then s.empruntsParLecteur[r] else {}
  }

  /** The active-loan count `emprunter_livre` computes, through the per-reader index. */
  function NbActifsIndexes(s: Etat, r: int): (n: nat)
    ensures n <= |IndexDe(s, r)|
  {
    var actifs := set k | k in IndexDe(s, r) && k in s.emprunts && !s.emprunts[k].retourne;
    assert IndexDe(s, r) == actifs + (IndexDe(s, r) - actifs);
    |actifs|
  }

  /** The ids of the loans of reader `r` that are not returned. */
  function Actifs(s: Etat, r: int): set<int>
  {
    set k | k in s.emprunts && s.emprunts[k].lecteurId == r && !s.emprunts[k].retourne
  }

  /** The ids of the books reader `r` has out, according to the loans. */
  function LivresActifs(s: Etat, r: int): set<int>
  {
    set k | k in s.emprunts && s.emprunts[k].lecteurId == r && !s.emprunts[k].retourne
          :: s.emprunts[k].livreId
  }

  /** Two books are the same work when their normalised titles and authors agree. */
  predicate MemeOuvrage(a: Livre, b: Livre)
  {
    Nettoyer(a.titre) == Nettoyer(b.titre) && Nettoyer(a.auteur) == Nettoyer(b.auteur)
  }

  predicate DejaAuCatalogue(ls: seq<Livre>, livre: Livre)
  {
    exists j :: 0 <= j < |ls| && MemeOuvrage(ls[j], livre)
  }

  /** Some registered user has this e-mail, compared with `lower()`. */
  predicate EmailPris(us: map<int, Utilisateur>, email: string)
  {
    exists k :: k in us && EnMinuscules(us[k].email) == EnMinuscules(email)
  }

  /** Some loan of this book is not returned. */
  predicate EmprunteEnCours(s: Etat, livreId: int)
  {
    exists k :: k in s.emprunts && s.emprunts[k].livreId == livreId && !s.emprunts[k].retourne
  }

  /** The confirmation answers `supprimer_livre` accepts, after `Nettoyer`. */
  predicate Confirme(reponse: string)
  {
    Nettoyer(reponse) in {"y", "yes", "oui", "o"}
  }

  // ----- invariants -----

  ghost predicate StocksCoherents(ls: seq<Livre>)
  {
    forall i :: 0 <= i < |ls| ==> ls[i].Coherent()
  }

  /** Users are filed under their own id, and no two share an e-mail up to case. */
  ghost predicate AnnuaireCoherent(us: map<int, Utilisateur>)
  {
    (forall k :: k in us ==> us[k].id == k) &&
    (forall k1, k2 :: k1 in us && k2 in us && k1 != k2 ==>
       EnMinuscules(us[k1].email) != EnMinuscules(us[k2].email))
  }

  /** Loans are filed under their own id, are coherent, and their ids are below the counter. */
  ghost predicate RegistreCoherent(s: Etat)
  {
    forall k :: k in s.emprunts ==>
      s.emprunts[k].id == k && s.emprunts[k].Coherent() && k < s.compteurEmprunt
  }

  /** The per-reader index holds exactly the ids of each reader's loans, returned or not. */
  ghost predicate IndexExact(s: Etat)
  {
    (forall r, k :: r in s.empruntsParLecteur && k in s.empruntsParLecteur[r] ==>
       k in s.emprunts && s.emprunts[k].lecteurId == r) &&
    (forall k :: k in s.emprunts ==>
       s.emprunts[k].lecteurId in s.empruntsParLecteur &&
       k in s.empruntsParLecteur[s.emprunts[k].lecteurId])
  }

  /** An active loan belongs to a registered reader and refers to a book in the catalogue. */
  ghost predicate PretsActifsValides(s: Etat)
  {
    forall k :: k in s.emprunts && !s.emprunts[k].retourne ==>
      EstLecteurInscrit(s, s.emprunts[k].lecteurId) && LivreExiste(s.livres, s.emprunts[k].livreId)
  }

  /** Each reader's `livres_empruntes` is exactly the books of its active loans. */
  ghost predicate DetentionsExactes(s: Etat)
  {
    forall r :: EstLecteurInscrit(s, r) ==> s.utilisateurs[r].livresEmpruntes == LivresActifs(s, r)
  }

  /** A reader never has two active loans of the same book. */
  ghost predicate UnPretParLivre(s: Etat)
  {
    forall k1, k2 ::
      (k1 in s.emprunts && k2 in s.emprunts && k1 != k2 &&
       !s.emprunts[k1].retourne && !s.emprunts[k2].retourne &&
       s.emprunts[k1].lecteurId == s.emprunts[k2].lecteurId) ==>
        s.emprunts[k1].livreId != s.emprunts[k2].livreId
  }

  /** No reader has more than `MAXI_PRET_ACTIF` active loans. */
  ghost predicate PlafondRespecte(s: Etat)
  {
    forall r :: |Actifs(s, r)| <= MAXI_PRET_ACTIF
  }

  /** Book ids are distinct and were all handed out by the book counter: every `Livre`
      takes the next `Livre.Compteur` value (lines 38-39). */
  ghost predicate IdsLivresEmis(ls: seq<Livre>, compteur: int)
  {
    (forall i, j :: 0 <= i < j < |ls| ==> ls[i].id != ls[j].id) &&
    (forall i :: 0 <= i < |ls| ==> ls[i].id < compteur)
  }

  ghost predicate Inv(s: Etat)
  {
    StocksCoherents(s.livres) && IdsLivresEmis(s.livres, s.compteurLivre) &&
    AnnuaireCoherent(s.utilisateurs) && RegistreCoherent(s) &&
    IndexExact(s) && PretsActifsValides(s) && DetentionsExactes(s) && UnPretParLivre(s) &&
    PlafondRespecte(s)
  }

  /** A new library: everything empty, both counters at 1. */
  function Initial(): (s: Etat)
    ensures Inv(s)
    ensures s.livres == [] && s.utilisateurs == map[] && s.emprunts == map[]
  {
    Etat([], map[], map[], map[], 1, 1)
  }

  // ----- catalogue -----

  /** `ajouter_livre`. */
  function AjouterLivre(s: Etat, livre: Livre, acteur: Utilisateur): (r: (Etat, Resultat))
    ensures r.1 == Echec(AccesRefuse) <==> !EstBibliothecaire(acteur)
    ensures r.1 == Echec(LivreExisteDeja) <==> EstBibliothecaire(acteur) && DejaAuCatalogue(s.livres, livre)
    ensures r.1 == Succes || r.1 == Echec(AccesRefuse) || r.1 == Echec(LivreExisteDeja)
    ensures r.1 != Succes ==> r.0 == s
    ensures r.1 == Succes ==> r.0 == s.(livres := s.livres + [livre])
  {
    if !EstBibliothecaire(acteur) then (s, Echec(AccesRefuse))
    else if DejaAuCatalogue(s.livres, livre) then (s, Echec(LivreExisteDeja))
    else (s.(livres := s.livres + [livre]), Succes)
  }

  /** `ajouter_livre(Livre(titre, auteur, categorie, exemplaires), acteur)`, as every
      caller does (lines 520-538, 924): building the book hands out the counter's id and
      moves the counter on, whether or not the book is then added. */
  function AjouterNouveauLivre(s: Etat, titre: string, auteur: string, categorie: string,
                               exemplaires: int, acteur: Utilisateur): (r: (Etat, Resultat))
    ensures var l := NouveauLivre(s.compteurLivre, titre, auteur, categorie, exemplaires);
      && r.0.compteurLivre == s.compteurLivre + 1
      && (r.1 == Echec(AccesRefuse) <==> !EstBibliothecaire(acteur))
      && (r.1 == Echec(LivreExisteDeja) <==> EstBibliothecaire(acteur) && DejaAuCatalogue(s.livres, l))
      && (r.1 == Succes || r.1 == Echec(AccesRefuse) || r.1 == Echec(LivreExisteDeja))
      && (r.1 != Succes ==> r.0 == s.(compteurLivre := s.compteurLivre + 1))
      && (r.1 == Succes ==> r.0 == s.(livres := s.livres + [l], compteurLivre := s.compteurLivre + 1))
  {
    var l := NouveauLivre(s.compteurLivre, titre, auteur, categorie, exemplaires);
    AjouterLivre(s.(compteurLivre := s.compteurLivre + 1), l, acteur)
  }

  /** The book after `modifier_livre` has applied the supplied fields. */
  function Modifie(l: Livre, ch: Champs): (r: Livre)
    ensures r.id == l.id
    ensures ch.titre.None? ==> r.titre == l.titre
    ensures ch.titre.Some? ==> r.titre == ch.titre.value
    ensures ch.auteur.None? ==> r.auteur == l.auteur
    ensures ch.auteur.Some? ==> r.auteur == ch.auteur.value
    ensures ch.categorie.None? ==> r.categorie == l.categorie
    ensures ch.categorie.Some? ==> r.categorie == ch.categorie.value
    ensures ch.exemplaires.None? ==> r.exemplaires == l.exemplaires
    ensures ch.exemplaires.Some? ==>
              r.exemplaires >= 0 && (ch.exemplaires.value >= 0 ==> r.exemplaires == ch.exemplaires.value)
    ensures ch.exemplaires.Some? && ch.exemplaires.value < 0 ==> r.exemplaires == 0
    ensures r.statut == StatutPour(r.exemplaires)
    ensures ch.exemplaires.Some? || l.exemplaires >= 0 ==> r.Coherent()
  {
    var titre := if ch.titre.Some? then ch.titre.value else l.titre;
    var auteur := if ch.auteur.Some? then ch.auteur.value else l.auteur;
    var categorie := if ch.categorie.Some? then ch.categorie.value else l.categorie;
    var exemplaires := match ch.exemplaires
      case Some(n) => if n > 0 then n else 0
      case None => l.exemplaires;
    MettreAJourStatut(l.(titre := titre, auteur := auteur, categorie := categorie,
                         exemplaires := exemplaires))
  }

  /** `modifier_livre`. */
  function ModifierLivre(s: Etat, livreId: int, acteur: Utilisateur, ch: Champs): (r: (Etat, Resultat))
    ensures r.1 == Echec(AccesRefuse) <==> !EstBibliothecaire(acteur)
    ensures r.1 == Echec(LivreIntrouvable) <==> EstBibliothecaire(acteur) && !LivreExiste(s.livres, livreId)
    ensures r.1 == Succes || r.1 == Echec(AccesRefuse) || r.1 == Echec(LivreIntrouvable)
    ensures r.1 != Succes ==> r.0 == s
    ensures r.1 == Succes ==>
      var i := IndiceLivre(s.livres, livreId).value;
      r.0 == s.(livres := s.livres[i := Modifie(s.livres[i], ch)])
  {
    if !EstBibliothecaire(acteur) then (s, Echec(AccesRefuse))
    else match IndiceLivre(s.livres, livreId)
      case None => (s, Echec(LivreIntrouvable))
      case Some(i) => (s.(livres := s.livres[i := Modifie(s.livres[i], ch)]), Succes)
  }

  /** `supprimer_livre`, the confirmation prompt's answer being `reponse`. */
  function SupprimerLivre(s: Etat, livreId: int, acteur: Utilisateur, reponse: string): (r: (Etat, Resultat))
    ensures r.1 == Echec(AccesRefuse) <==> !EstBibliothecaire(acteur)
    ensures r.1 == Echec(LivreIntrouvable) <==> EstBibliothecaire(acteur) && !LivreExiste(s.livres, livreId)
    ensures r.1 == Echec(LivreEmprunte) <==>
      EstBibliothecaire(acteur) && LivreExiste(s.livres, livreId) && EmprunteEnCours(s, livreId)
    ensures r.1 == Echec(SuppressionAnnulee) <==>
      EstBibliothecaire(acteur) && LivreExiste(s.livres, livreId) && !EmprunteEnCours(s, livreId) &&
      !Confirme(reponse)
    ensures r.1 == Succes || r.1 == Echec(AccesRefuse) || r.1 == Echec(LivreIntrouvable) ||
            r.1 == Echec(LivreEmprunte) || r.1 == Echec(SuppressionAnnulee)
    ensures r.1 != Succes ==> r.0 == s
    ensures r.1 == Succes ==>
      var i := IndiceLivre(s.livres, livreId).value;
      r.0 == s.(livres := s.livres[..i] + s.livres[i + 1..])
  {
    if !EstBibliothecaire(acteur) then (s, Echec(AccesRefuse))
    else match IndiceLivre(s.livres, livreId)
      case None => (s, Echec(LivreIntrouvable))
      case Some(i) =>
        if EmprunteEnCours(s, livreId) then (s, Echec(LivreEmprunte))
        else if !Confirme(reponse) then (s, Echec(SuppressionAnnulee))
        else (s.(livres := s.livres[..i] + s.livres[i + 1..]), Succes)
  }

  // ----- users -----

  /** `ajouter_utilisateur`. */
  function AjouterUtilisateur(s: Etat, u: Utilisateur): (r: (Etat, Resultat))
    ensures r.1 == Echec(IdDejaUtilise) <==> u.id in s.utilisateurs
    ensures r.1 == Echec(EmailDejaUtilise) <==> u.id !in s.utilisateurs && EmailPris(s.utilisateurs, u.email)
    ensures r.1 == Succes || r.1 == Echec(IdDejaUtilise) || r.1 == Echec(EmailDejaUtilise)
    ensures r.1 != Succes ==> r.0 == s
    ensures r.1 == Succes ==> r.0 == s.(utilisateurs := s.utilisateurs[u.id := u])
  {
    if u.id in s.utilisateurs then (s, Echec(IdDejaUtilise))
    else if EmailPris(s.utilisateurs, u.email) then (s, Echec(EmailDejaUtilise))
    else (s.(utilisateurs := s.utilisateurs[u.id := u]), Succes)
  }

  // ----- loans -----

  /** The state after a successful `emprunter_livre` (lines 373-389) of the book at
      position `i`: a new loan is filed under the next id, indexed under the reader,
      the book joins the reader's set and its stock goes down by one. */
  function ApresEmprunt(s: Etat, i: nat, livreId: int, lecteurId: int, maintenant: int): (t: Etat)
    requires i < |s.livres| && EstLecteurInscrit(s, lecteurId)
    ensures var n := s.compteurEmprunt;
            var lecteur := s.utilisateurs[lecteurId];
      && t.compteurEmprunt == n + 1 && t.compteurLivre == s.compteurLivre
      // the new loan
      && t.emprunts.Keys == s.emprunts.Keys + {n}
      && t.emprunts[n] == NouvelEmprunt(n, livreId, lecteurId, maintenant)
      && (forall k :: k in s.emprunts && k != n ==> t.emprunts[k] == s.emprunts[k])
      // the index
      && IndexDe(t, lecteurId) == IndexDe(s, lecteurId) + {n}
      && (forall x :: x != lecteurId ==> IndexDe(t, x) == IndexDe(s, x))
      // the reader
      && t.utilisateurs.Keys == s.utilisateurs.Keys
      && t.utilisateurs[lecteurId] == lecteur.(livresEmpruntes := lecteur.livresEmpruntes + {livreId})
      && (forall x :: x in s.utilisateurs && x != lecteurId ==> t.utilisateurs[x] == s.utilisateurs[x])
      // the book
      && |t.livres| == |s.livres|
      && t.livres[i].exemplaires == s.livres[i].exemplaires - 1
      && t.livres[i] == MettreAJourStatut(s.livres[i].(exemplaires := s.livres[i].exemplaires - 1))
      && (forall j :: 0 <= j < |s.livres| && j != i ==> t.livres[j] == s.livres[j])
  {
    var livre := s.livres[i];
    var lecteur := s.utilisateurs[lecteurId];
    var n := s.compteurEmprunt;
    Etat(s.livres[i := MettreAJourStatut(livre.(exemplaires := livre.exemplaires - 1))],
         s.utilisateurs[lecteurId := lecteur.(livresEmpruntes := lecteur.livresEmpruntes + {livreId})],
         s.emprunts[n := NouvelEmprunt(n, livreId, lecteurId, maintenant)],
         s.empruntsParLecteur[lecteurId := IndexDe(s, lecteurId) + {n}],
         s.compteurLivre,
         n + 1)
  }

  /** `emprunter_livre` at time `maintenant`: five checks, the first failing one wins
      and changes nothing; otherwise the loan is made as `ApresEmprunt` says. */
  function Emprunter(s: Etat, livreId: int, lecteurId: int, maintenant: int): (r: (Etat, Resultat))
    ensures r.1 == Echec(UtilisateurNonValide) <==> !EstLecteurInscrit(s, lecteurId)
    ensures r.1 == Echec(LivreIntrouvable) <==>
      EstLecteurInscrit(s, lecteurId) && !LivreExiste(s.livres, livreId)
    ensures r.1 == Echec(AucunExemplaire) <==>
      EstLecteurInscrit(s, lecteurId) && LivreExiste(s.livres, livreId) &&
      s.livres[IndiceLivre(s.livres, livreId).value].exemplaires <= 0
    ensures r.1 == Echec(DejaEmprunte) <==>
      EstLecteurInscrit(s, lecteurId) && LivreExiste(s.livres, livreId) &&
      s.livres[IndiceLivre(s.livres, livreId).value].exemplaires > 0 &&
      livreId in s.utilisateurs[lecteurId].livresEmpruntes
    ensures r.1 == Echec(LimiteAtteinte) <==>
      EstLecteurInscrit(s, lecteurId) && LivreExiste(s.livres, livreId) &&
      s.livres[IndiceLivre(s.livres, livreId).value].exemplaires > 0 &&
      livreId !in s.utilisateurs[lecteurId].livresEmpruntes &&
      NbActifsIndexes(s, lecteurId) >= MAXI_PRET_ACTIF
    ensures r.1 == Succes || r.1 == Echec(UtilisateurNonValide) || r.1 == Echec(LivreIntrouvable) ||
            r.1 == Echec(AucunExemplaire) || r.1 == Echec(DejaEmprunte) || r.1 == Echec(LimiteAtteinte)
    ensures r.1.Echec? ==> r.0 == s
    ensures r.1 == Succes ==>
      EstLecteurInscrit(s, lecteurId) && LivreExiste(s.livres, livreId) &&
      r.0 == ApresEmprunt(s, IndiceLivre(s.livres, livreId).value, livreId, lecteurId, maintenant)
  {
    if !EstLecteurInscrit(s, lecteurId) then (s, Echec(UtilisateurNonValide))
    else match IndiceLivre(s.livres, livreId)
      case None => (s, Echec(LivreIntrouvable))
      case Some(i) =>
        if s.livres[i].exemplaires <= 0 then (s, Echec(AucunExemplaire))
        else if livreId in s.utilisateurs[lecteurId].livresEmpruntes then (s, Echec(DejaEmprunte))
        else if NbActifsIndexes(s, lecteurId) >= MAXI_PRET_ACTIF then (s, Echec(LimiteAtteinte))
        else (ApresEmprunt(s, i, livreId, lecteurId, maintenant), Succes)
  }

  /** The state after a successful `rendre_livre` (lines 409-422) of loan `empruntId`:
      the loan is marked returned, the book (if still catalogued) gets its copy back
      and the reader (if still a reader) no longer holds it. */
  function ApresRetour(s: Etat, empruntId: int, maintenant: int): (t: Etat)
    requires empruntId in s.emprunts
    ensures var e := s.emprunts[empruntId];
      && t.emprunts == s.emprunts[empruntId := Rendu(e, maintenant)]
      && t.empruntsParLecteur == s.empruntsParLecteur
      && t.compteurEmprunt == s.compteurEmprunt && t.compteurLivre == s.compteurLivre
      && |t.livres| == |s.livres|
      && (match IndiceLivre(s.livres, e.livreId)
          case None => t.livres == s.livres
          case Some(i) =>
            t.livres[i].exemplaires == s.livres[i].exemplaires + 1 &&
            t.livres[i] == MettreAJourStatut(s.livres[i].(exemplaires := s.livres[i].exemplaires + 1)) &&
            forall j :: 0 <= j < |s.livres| && j != i ==> t.livres[j] == s.livres[j])
      && t.utilisateurs.Keys == s.utilisateurs.Keys
      && (forall x :: x in s.utilisateurs && x != e.lecteurId ==> t.utilisateurs[x] == s.utilisateurs[x])
      && (EstLecteurInscrit(s, e.lecteurId) ==>
            t.utilisateurs[e.lecteurId].Lecteur? &&
            t.utilisateurs[e.lecteurId].(livresEmpruntes := s.utilisateurs[e.lecteurId].livresEmpruntes)
              == s.utilisateurs[e.lecteurId] &&
            t.utilisateurs[e.lecteurId].livresEmpruntes ==
              s.utilisateurs[e.lecteurId].livresEmpruntes - {e.livreId})
      && (!EstLecteurInscrit(s, e.lecteurId) ==> t.utilisateurs == s.utilisateurs)
  {
    var e := s.emprunts[empruntId];
    var livres := match IndiceLivre(s.livres, e.livreId)
      case None => s.livres
      case Some(i) =>
        s.livres[i := MettreAJourStatut(s.livres[i].(exemplaires := s.livres[i].exemplaires + 1))];
    var utilisateurs :=
      if EstLecteurInscrit(s, e.lecteurId) then
        var lecteur := s.utilisateurs[e.lecteurId];
        s.utilisateurs[e.lecteurId := lecteur.(livresEmpruntes := lecteur.livresEmpruntes - {e.livreId})]
      else s.utilisateurs;
    s.(livres := livres, utilisateurs := utilisateurs,
       emprunts := s.emprunts[empruntId := Rendu(e, maintenant)])
  }

  /** `rendre_livre` at time `maintenant`: an unknown or already returned loan is
      refused and nothing changes; otherwise the return is made as `ApresRetour` says. */
  function Rendre(s: Etat, empruntId: int, maintenant: int): (r: (Etat, Resultat))
    ensures r.1 == Echec(EmpruntIntrouvable) <==> empruntId !in s.emprunts
    ensures r.1 == Echec(DejaRetourne) <==> empruntId in s.emprunts && s.emprunts[empruntId].retourne
    ensures r.1 == Succes || r.1 == Echec(EmpruntIntrouvable) || r.1 == Echec(DejaRetourne)
    ensures r.1.Echec? ==> r.0 == s
    ensures r.1 == Succes ==> empruntId in s.emprunts && r.0 == ApresRetour(s, empruntId, maintenant)
  {
    if empruntId !in s.emprunts then (s, Echec(EmpruntIntrouvable))
    else if s.emprunts[empruntId].retourne then (s, Echec(DejaRetourne))
    else (ApresRetour(s, empruntId, maintenant), Succes)
  }

  // ----- search, listing, statistics -----

  /** The `elif` chain of `rechercher_livre` for one book, criterion and value already
      normalised. */
  predicate Correspond(l: Livre, critere: string, valeur: string)
  {
    if critere == "titre" then EstSousChaine(valeur, Nettoyer(l.titre))
    else if critere == "auteur" then EstSousChaine(valeur, Nettoyer(l.auteur))
    else if critere == "categorie" then EstSousChaine(valeur, Nettoyer(l.categorie))
    else if critere == "disponibilite" then valeur == Nettoyer(Libelle(l.statut))
    else false
  }

  /** The books of `ls` that match, in catalogue order. */
  function Filtrer(ls: seq<Livre>, critere: string, valeur: string): (r: seq<Livre>)
    ensures |r| <= |ls|
    ensures forall l :: l in r <==> l in ls && Correspond(l, critere, valeur)
    decreases |ls|
  {
    if ls == [] then []
    else
      var l := ls[|ls| - 1];
      assert forall x :: x in ls <==> x in ls[..|ls| - 1] || x == l;
      Filtrer(ls[..|ls| - 1], critere, valeur) + (if Correspond(l, critere, valeur) then [l] else [])
  }

  /** `rechercher_livre`: the result list, before it is printed. */
  function Rechercher(s: Etat, critere: string, valeur: string): (r: seq<Livre>)
    ensures |r| <= |s.livres|
    ensures forall l :: l in r <==> l in s.livres && Correspond(l, Nettoyer(critere), Nettoyer(valeur))
  {
    Filtrer(s.livres, Nettoyer(critere), Nettoyer(valeur))
  }

  function EmpruntsEnCours(s: Etat): (r: set<int>)
    ensures r <= s.emprunts.Keys
    ensures forall k :: k in s.emprunts ==> (k in r <==> !s.emprunts[k].retourne)
  {
    set k | k in s.emprunts && !s.emprunts[k].retourne
  }

  /** The counts `statistiques` prints. */
  datatype Bilan = Bilan(livres: nat, lecteurs: nat, bibliothecaires: nat,
                         empruntsActifs: nat, empruntsEnRetard: nat)

  function Lecteurs(s: Etat): set<int>
  {
    set k | k in s.utilisateurs && s.utilisateurs[k].Lecteur?
  }

  function Bibliothecaires(s: Etat): set<int>
  {
    set k | k in s.utilisateurs && s.utilisateurs[k].Bibliothecaire?
  }

  function EmpruntsEnRetard(s: Etat, maintenant: int): set<int>
  {
    set k | k in s.emprunts && !s.emprunts[k].retourne && EnRetard(s.emprunts[k], maintenant)
  }

  /** The five counts of `statistiques`: every user is counted once, as a reader or
      as a librarian, and only active loans are counted as overdue. */
  function BilanDe(s: Etat, maintenant: int): (b: Bilan)
    ensures b.livres == |s.livres|
    ensures b.lecteurs + b.bibliothecaires == |s.utilisateurs|
    ensures b.empruntsEnRetard <= b.empruntsActifs <= |s.emprunts|
  {
    UtilisateursPartages(s);
    RetardsParmiActifs(s, maintenant);
    Bilan(|s.livres|, |Lecteurs(s)|, |Bibliothecaires(s)|,
          |EmpruntsEnCours(s)|, |EmpruntsEnRetard(s, maintenant)|)
  }

  /** Every user is a reader or a librarian, never both. */
  lemma UtilisateursPartages(s: Etat)
    ensures |Lecteurs(s)| + |Bibliothecaires(s)| == |s.utilisateurs|
  {
    assert Lecteurs(s) + Bibliothecaires(s) == s.utilisateurs.Keys;
    assert Lecteurs(s) !! Bibliothecaires(s);
  }

  /** Overdue loans are among the active ones, which are among all loans. */
  lemma RetardsParmiActifs(s: Etat, maintenant: int)
    ensures |EmpruntsEnRetard(s, maintenant)| <= |EmpruntsEnCours(s)| <= |s.emprunts|
  {
    var actifs := EmpruntsEnCours(s);
    var retards := EmpruntsEnRetard(s, maintenant);
    assert actifs == retards + (actifs - retards);
    assert s.emprunts.Keys == actifs + (s.emprunts.Keys - actifs);
  }
}
