/** The `Bibliotheque` class: its stores are fields that the methods update in place,
    each method doing what the source does step by step, and each proved to leave the
    library in the state the matching function of `Regles` describes. */
module Gestion {
  import opened Texte
  import opened Modele
  import opened Regles
  import Conservation

  /** The keys of `cles` that satisfy `p`. */
  ghost function Retenues(cles: set<int>, p: int -> bool): set<int>
  {
    set k | k in cles && p(k)
  }

  lemma RetenuesAjout(cles: set<int>, k: int, p: int -> bool)
    requires k !in cles
    ensures Retenues(cles + {k}, p) == if p(k) then Retenues(cles, p) + {k} else Retenues(cles, p)
  {
  }

  /** The number of keys that satisfy `p`: the counting loops of `emprunter_livre`
      (lines 361-365) and `statistiques` (lines 463-484). */
  method Compter(cles: set<int>, p: int -> bool) returns (n: nat)
    ensures n == |Retenues(cles, p)|
  {
    n := 0;
    var restantes := cles;
    while restantes != {}
      invariant restantes <= cles
      invariant n == |Retenues(cles - restantes, p)|
      decreases |restantes|
    {
      NonVide(restantes);
      var k :| k in restantes;
      RetenuesAjout(cles - restantes, k, p);
      assert cles - (restantes - {k}) == (cles - restantes) + {k};
      if p(k) {
        n := n + 1;
      }
      restantes := restantes - {k};
    }
    assert cles - restantes == cles;
  }

  class Bibliotheque {
    const nom: string
    const adresse: string
    var livres: seq<Livre>
    var utilisateurs: map<int, Utilisateur>
    var emprunts: map<int, Emprunt>
    var empruntsParLecteur: map<int, set<int>>
    /** `Livre.Compteur`: the id the next book gets. */
    var compteurLivre: int
    /** `Emprunt.Compteur`: the id the next loan gets. */
    var compteurEmprunt: int

    /** The library's state as a value. */
    function Contenu(): Etat
      reads this
    {
      Etat(livres, utilisateurs, emprunts, empruntsParLecteur, compteurLivre, compteurEmprunt)
    }

    ghost predicate Valid()
      reads this
    {
      Inv(Contenu())
    }

    constructor (nom: string, adresse: string)
      ensures Valid() && Contenu() == Initial()
      ensures this.nom == nom && this.adresse == adresse
    {
      this.nom := nom;
      this.adresse := adresse;
      livres := [];
      utilisateurs := map[];
      emprunts := map[];
      empruntsParLecteur := map[];
      compteurLivre := 1;
      compteurEmprunt := 1;
    }

    /** `Livre(titre, auteur, categorie, exemplaires)`: the book takes the counter's id
        and the counter moves on, whether or not the book is ever added. */
    method CreerLivre(titre: string, auteur: string, categorie: string, exemplaires: int)
      returns (l: Livre)
      requires Valid()
      modifies this`compteurLivre
      ensures Valid()
      ensures l == NouveauLivre(old(compteurLivre), titre, auteur, categorie, exemplaires)
      ensures compteurLivre == old(compteurLivre) + 1
    {
      Conservation.CompteurLivreConserve(Contenu(), compteurLivre + 1);
      l := NouveauLivre(compteurLivre, titre, auteur, categorie, exemplaires);
      compteurLivre := compteurLivre + 1;
    }

    // ----- books -----

    /** `_trouver_livre_par_id`: the position of the first book with this id. */
    method TrouverLivreParId(livreId: int) returns (r: Option<nat>)
      ensures r == IndiceLivre(livres, livreId)
    {
      var i := 0;
      while i < |livres|
        invariant 0 <= i <= |livres|
        invariant forall j :: 0 <= j < i ==> livres[j].id != livreId
      {
        if livres[i].id == livreId {
          return Some(i);
        }
        i := i + 1;
      }
      return None;
    }

    /** The duplicate scan of `ajouter_livre` (lines 178-181). */
    method ChercherDoublon(livre: Livre) returns (trouve: bool)
      ensures trouve == DejaAuCatalogue(livres, livre)
    {
      var ls := livres;
      var i := 0;
      while i < |ls|
        invariant 0 <= i <= |ls|
        invariant forall j :: 0 <= j < i ==> !MemeOuvrage(ls[j], livre)
      {
        if MemeOuvrage(ls[i], livre) {
          return true;
        }
        i := i + 1;
      }
      return false;
    }

    /** `ajouter_livre`, for a book built by `CreerLivre` and not added yet. */
    method AjouterLivre(livre: Livre, acteur: Utilisateur) returns (r: Resultat)
      requires Valid() && livre.Coherent()
      requires livre.id < compteurLivre && !LivreExiste(livres, livre.id)
      modifies this
      ensures Valid()
      ensures (Contenu(), r) == Regles.AjouterLivre(old(Contenu()), livre, acteur)
    {
      if !EstBibliothecaire(acteur) {
        return Echec(AccesRefuse);
      }
      var doublon := ChercherDoublon(livre);
      if doublon {
        return Echec(LivreExisteDeja);
      }
      Conservation.AjouterLivreConserve(Contenu(), livre, acteur);
      livres := livres + [livre];
      r := Succes;
    }

    /** `ajouter_livre(Livre(titre, auteur, categorie, exemplaires), acteur)`, as at
        line 924: the book is built, taking the next id, and then added. */
    method AjouterNouveauLivre(titre: string, auteur: string, categorie: string, exemplaires: int,
                               acteur: Utilisateur) returns (r: Resultat)
      requires Valid()
      modifies this
      ensures Valid()
      ensures (Contenu(), r) == Regles.AjouterNouveauLivre(old(Contenu()), titre, auteur, categorie,
                                                           exemplaires, acteur)
    {
      var l := CreerLivre(titre, auteur, categorie, exemplaires);
      r := AjouterLivre(l, acteur);
    }

    /** `modifier_livre` with the supplied fields `champs`. */
    method ModifierLivre(livreId: int, acteur: Utilisateur, champs: Champs) returns (r: Resultat)
      requires Valid()
      modifies this
      ensures Valid()
      ensures (Contenu(), r) == Regles.ModifierLivre(old(Contenu()), livreId, acteur, champs)
    {
      if !EstBibliothecaire(acteur) {
        return Echec(AccesRefuse);
      }
      var trouve := TrouverLivreParId(livreId);
      if trouve.None? {
        return Echec(LivreIntrouvable);
      }
      Conservation.ModifierLivreConserve(Contenu(), livreId, acteur, champs);
      var i := trouve.value;
      var livre := livres[i];
      if champs.titre.Some? {
        livre := livre.(titre := champs.titre.value);
      }
      if champs.auteur.Some? {
        livre := livre.(auteur := champs.auteur.value);
      }
      if champs.categorie.Some? {
        livre := livre.(categorie := champs.categorie.value);
      }
      if champs.exemplaires.Some? {
        var n := champs.exemplaires.value;
        livre := livre.(exemplaires := if n > 0 then n else 0);
      }
      livres := livres[i := MettreAJourStatut(livre)];
      r := Succes;
    }

    /** The scan of `supprimer_livre` for a loan of this book still out (lines 230-233). */
    method LivreEnCoursDEmprunt(livreId: int) returns (b: bool)
      ensures b == EmprunteEnCours(Contenu(), livreId)
    {
      var restantes := emprunts.Keys;
      while restantes != {}
        invariant restantes <= emprunts.Keys
        invariant forall k :: k in emprunts && k !in restantes ==>
                    !(emprunts[k].livreId == livreId && !emprunts[k].retourne)
        decreases |restantes|
      {
        NonVide(restantes);
        var k :| k in restantes;
        if emprunts[k].livreId == livreId && !emprunts[k].retourne {
          return true;
        }
        restantes := restantes - {k};
      }
      return false;
    }

    /** `supprimer_livre`; `reponse` is what the user typed at the confirmation prompt. */
    method SupprimerLivre(livreId: int, acteur: Utilisateur, reponse: string) returns (r: Resultat)
      requires Valid()
      modifies this
      ensures Valid()
      ensures (Contenu(), r) == Regles.SupprimerLivre(old(Contenu()), livreId, acteur, reponse)
    {
      if !EstBibliothecaire(acteur) {
        return Echec(AccesRefuse);
      }
      var trouve := TrouverLivreParId(livreId);
      if trouve.None? {
        return Echec(LivreIntrouvable);
      }
      var enCours := LivreEnCoursDEmprunt(livreId);
      if enCours {
        return Echec(LivreEmprunte);
      }
      if !Confirme(reponse) {
        return Echec(SuppressionAnnulee);
      }
      Conservation.SupprimerLivreConserve(Contenu(), livreId, acteur, reponse);
      var i := trouve.value;
      livres := livres[..i] + livres[i + 1..];
      r := Succes;
    }

    /** `rechercher_livre`: the books it would print, in catalogue order. */
    method RechercherLivre(critere: string, valeur: string) returns (resultats: seq<Livre>)
      ensures resultats == Rechercher(Contenu(), critere, valeur)
    {
      var c := Nettoyer(critere);
      var v := Nettoyer(valeur);
      resultats := [];
      var i := 0;
      while i < |livres|
        invariant 0 <= i <= |livres|
        invariant resultats == Filtrer(livres[..i], c, v)
      {
        // the `elif` chain on the normalised title, author, category and status
        if Correspond(livres[i], c, v) {
          resultats := resultats + [livres[i]];
        }
        assert livres[..i + 1][..i] == livres[..i];
        i := i + 1;
      }
      assert livres[..i] == livres;
    }

    // ----- users -----

    /** `trouver_utilisateur_par_email`: a user whose e-mail matches up to case, if any. */
    method TrouverUtilisateurParEmail(email: string) returns (u: Option<Utilisateur>)
      ensures u.Some? ==> u.value in utilisateurs.Values &&
                          EnMinuscules(u.value.email) == EnMinuscules(email)
      ensures u.None? <==> !EmailPris(utilisateurs, email)
    {
      var restantes := utilisateurs.Keys;
      while restantes != {}
        invariant restantes <= utilisateurs.Keys
        invariant forall k :: k in utilisateurs && k !in restantes ==>
                    EnMinuscules(utilisateurs[k].email) != EnMinuscules(email)
        decreases |restantes|
      {
        NonVide(restantes);
        var k :| k in restantes;
        if EnMinuscules(utilisateurs[k].email) == EnMinuscules(email) {
          return Some(utilisateurs[k]);
        }
        restantes := restantes - {k};
      }
      return None;
    }

    /** `ajouter_utilisateur`; a new reader holds no book yet, as `Lecteur.__init__` makes it. */
    method AjouterUtilisateur(u: Utilisateur) returns (r: Resultat)
      requires Valid()
      requires u.Lecteur? ==> u.livresEmpruntes == {}
      modifies this
      ensures Valid()
      ensures (Contenu(), r) == Regles.AjouterUtilisateur(old(Contenu()), u)
    {
      if u.id in utilisateurs {
        return Echec(IdDejaUtilise);
      }
      var existant := TrouverUtilisateurParEmail(u.email);
      if existant.Some? {
        return Echec(EmailDejaUtilise);
      }
      Conservation.AjouterUtilisateurConserve(Contenu(), u);
      utilisateurs := utilisateurs[u.id := u];
      r := Succes;
    }

    // ----- loans -----

    /** The active-loan count of `emprunter_livre` (lines 360-365): the loans in the
        reader's index that are still out. */
    method CompterActifs(lecteurId: int) returns (n: nat)
      ensures n == NbActifsIndexes(Contenu(), lecteurId)
    {
      var ids := if lecteurId in empruntsParLecteur then empruntsParLecteur[lecteurId] else {};
      var prets := emprunts;
      var actif := k => k in prets && !prets[k].retourne;
      n := Compter(ids, actif);
      assert Retenues(ids, actif) ==
             set k | k in IndexDe(Contenu(), lecteurId) && k in emprunts && !emprunts[k].retourne;
    }

    /** `emprunter_livre` at time `maintenant`. */
    method EmprunterLivre(livreId: int, lecteurId: int, maintenant: int) returns (r: Resultat)
      requires Valid()
      modifies this
      ensures Valid()
      ensures (Contenu(), r) == Regles.Emprunter(old(Contenu()), livreId, lecteurId, maintenant)
    {
      if lecteurId !in utilisateurs || !utilisateurs[lecteurId].Lecteur? {
        return Echec(UtilisateurNonValide);
      }
      var lecteur := utilisateurs[lecteurId];
      var trouve := TrouverLivreParId(livreId);
      if trouve.None? {
        return Echec(LivreIntrouvable);
      }
      var i := trouve.value;
      var livre := livres[i];
      if livre.exemplaires <= 0 {
        return Echec(AucunExemplaire);
      }
      if livreId in lecteur.livresEmpruntes {
        return Echec(DejaEmprunte);
      }
      var nbActifs := CompterActifs(lecteurId);
      if nbActifs >= MAXI_PRET_ACTIF {
        return Echec(LimiteAtteinte);
      }
      Conservation.NbActifsIndexesExact(Contenu(), lecteurId);
      Conservation.ApresEmpruntConserve(Contenu(), i, livreId, lecteurId, maintenant);
      Preter(i, livreId, lecteurId, maintenant);
      r := Succes;
    }

    /** The effects of a permitted `emprunter_livre` (lines 373-389) on the book at
        position `i`: the loan is created and filed, indexed under the reader, recorded
        in the reader's set, and the stock goes down by one. */
    method Preter(i: nat, livreId: int, lecteurId: int, maintenant: int)
      requires i < |livres| && EstLecteurInscrit(Contenu(), lecteurId)
      modifies this
      ensures Contenu() == ApresEmprunt(old(Contenu()), i, livreId, lecteurId, maintenant)
    {
      ghost var apres := ApresEmprunt(Contenu(), i, livreId, lecteurId, maintenant);
      var lecteur := utilisateurs[lecteurId];
      var livre := livres[i];
      var n := compteurEmprunt;
      compteurEmprunt := compteurEmprunt + 1;
      emprunts := emprunts[n := NouvelEmprunt(n, livreId, lecteurId, maintenant)];
      var ids := if lecteurId in empruntsParLecteur then empruntsParLecteur[lecteurId] else {};
      empruntsParLecteur := empruntsParLecteur[lecteurId := ids + {n}];
      utilisateurs := utilisateurs[lecteurId := lecteur.(livresEmpruntes := lecteur.livresEmpruntes + {livreId})];
      livres := livres[i := MettreAJourStatut(livre.(exemplaires := livre.exemplaires - 1))];
      assert Contenu() == apres;
    }

    /** `rendre_livre` at time `maintenant`. */
    method RendreLivre(empruntId: int, maintenant: int) returns (r: Resultat)
      requires Valid()
      modifies this
      ensures Valid()
      ensures (Contenu(), r) == Regles.Rendre(old(Contenu()), empruntId, maintenant)
    {
      if empruntId !in emprunts {
        return Echec(EmpruntIntrouvable);
      }
      var e := emprunts[empruntId];
      if e.retourne {
        return Echec(DejaRetourne);
      }
      Conservation.ApresRetourConserve(Contenu(), empruntId, maintenant);
      Retourner(empruntId, maintenant);
      r := Succes;
    }

    /** The effects of an accepted `rendre_livre` (lines 409-422): the loan is marked
        returned, the book (if still catalogued) gets its copy back and the reader (if
        still a reader) no longer holds it. */
    method Retourner(empruntId: int, maintenant: int)
      requires empruntId in emprunts
      modifies this
      ensures Contenu() == ApresRetour(old(Contenu()), empruntId, maintenant)
    {
      ghost var apres := ApresRetour(Contenu(), empruntId, maintenant);
      var e := emprunts[empruntId];
      emprunts := emprunts[empruntId := Rendu(e, maintenant)];
      var trouve := TrouverLivreParId(e.livreId);
      if trouve.Some? {
        var l := livres[trouve.value];
        livres := livres[trouve.value := MettreAJourStatut(l.(exemplaires := l.exemplaires + 1))];
      }
      if e.lecteurId in utilisateurs && utilisateurs[e.lecteurId].Lecteur? {
        var lecteur := utilisateurs[e.lecteurId];
        utilisateurs := utilisateurs[e.lecteurId := lecteur.(livresEmpruntes := lecteur.livresEmpruntes - {e.livreId})];
      }
      assert Contenu() == apres;
    }

    /** `lister_emprunts_en_cours`: the loans it would print. */
    method ListerEmpruntsEnCours() returns (enCours: seq<Emprunt>)
      ensures forall e :: e in enCours ==> e in emprunts.Values && !e.retourne
      ensures forall k :: k in emprunts && !emprunts[k].retourne ==> emprunts[k] in enCours
    {
      enCours := [];
      var prets := emprunts;
      var restantes := prets.Keys;
      while restantes != {}
        invariant restantes <= prets.Keys
        invariant forall e :: e in enCours ==> e in prets.Values && !e.retourne
        invariant forall k :: k in prets && k !in restantes && !prets[k].retourne ==> prets[k] in enCours
        decreases |restantes|
      {
        NonVide(restantes);
        var k :| k in restantes;
        if !prets[k].retourne {
          enCours := enCours + [prets[k]];
        }
        restantes := restantes - {k};
      }
    }

    /** `statistiques` at time `maintenant`: the five counts it prints. */
    method Statistiques(maintenant: int) returns (b: Bilan)
      ensures b == BilanDe(Contenu(), maintenant)
    {
      var us := utilisateurs;
      var prets := emprunts;
      var estLecteur := k => k in us && us[k].Lecteur?;
      var estBiblio := k => k in us && us[k].Bibliothecaire?;
      var actif := k => k in prets && !prets[k].retourne;
      var retard := k => k in prets && !prets[k].retourne && EnRetard(prets[k], maintenant);
      var totalLecteurs := Compter(us.Keys, estLecteur);
      var totalBiblios := Compter(us.Keys, estBiblio);
      var actifs := Compter(prets.Keys, actif);
      var retards := Compter(prets.Keys, retard);
      assert Retenues(us.Keys, estLecteur) == Lecteurs(Contenu());
      assert Retenues(us.Keys, estBiblio) == Bibliothecaires(Contenu());
      assert Retenues(prets.Keys, actif) == EmpruntsEnCours(Contenu());
      assert Retenues(prets.Keys, retard) == EmpruntsEnRetard(Contenu(), maintenant);
      b := Bilan(|livres|, totalLecteurs, totalBiblios, actifs, retards);
    }
  }
}
