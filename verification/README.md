# Library management core (Projet_V2.py), modelled in Dafny

`Projet_V2.py` manages a small library. The model covers its domain core:

- the book catalogue (`Livre`, and `Bibliotheque.ajouter_livre`, `modifier_livre`,
  `supprimer_livre`, `rechercher_livre`);
- the user directory (`Lecteur`, `Bibliothecaire`, and `ajouter_utilisateur`,
  `trouver_utilisateur_par_email`);
- the loan ledger (`Emprunt`, and `emprunter_livre`, `rendre_livre`,
  `lister_emprunts_en_cours`);
- the counts printed by `statistiques`;
- the text normalisation `Nettoyer` that the catalogue uses to compare titles, authors
  and search criteria.

Modules:

- `Texte` (texte.dfy): `Nettoyer` (`strip` then `casefold`), `lower()` and the substring
  test `in`. It also proves what normalisation guarantees: no surrounding whitespace, no
  capitals, idempotence, insensitivity to case and to surrounding whitespace.
- `Modele` (modele.dfy): the entities as values and the loan's overdue computations
  (`en_retard`, `jours_de_retard`).
- `Regles` (regles.dfy): the library's state as a value (`Etat`) and its invariant
  (`Inv`). Every operation is a function from the state before to the state after and
  the outcome. A refusal carries the reason the source prints before it returns `False`.
- `Conservation` (conservation.dfy): every operation keeps `Inv`. `Inv` covers these
  guarantees:
  - stocks are non-negative and agree with the status;
  - users are filed under their id, with distinct e-mails;
  - the per-reader index is exact;
  - each reader's `livres_empruntes` is exactly the books of its active loans;
  - a reader never has two active loans of one book, and never more than 3.
- `Gestion` (gestion.dfy): the `Bibliotheque` class.
  - Its dictionaries and list are fields, and its methods update them in place, with
    the loops of the source.
  - Each method is proved to leave the library in the state the matching `Regles`
    function gives, and to keep `Inv`.
- `Proprietes` (proprietes.dfy): properties that relate several operations, namely
  borrow-then-return, a second return, the loan cap, duplicates, searches, statistics,
  and the usage scenarios.
- `Constats` (constats.dfy): the two places where the source reads an attribute that
  does not exist (see Findings).

Modelling choices:

- The current time is a parameter `maintenant`, a whole number of seconds.
  `timedelta.days` is the floor of the difference divided by 86400.
- The class counters `Livre.Compteur` and `Emprunt.Compteur` are fields of the library
  (`compteurLivre`, `compteurEmprunt`).
- The answer typed at the deletion prompt is a parameter `reponse`.

Facts about the code that the model keeps:

- The stock test (line 350) comes before the already-held test (line 355). So a reader
  who asks again for the last copy they hold is refused with "no copy available".
  `Proprietes.ScenarioExemplaireUnique` states this.
- The deletion confirmation (lines 236-237) is the typed answer. It is accepted when
  its normalised form is one of `y`, `yes`, `oui`, `o` (`Regles.Confirme`).
- Lines 364, 477 and 483 read `est_retourne`, but `Emprunt` only defines `retourne`;
  see Findings.

## Model

| member | source | states |
|---|---|---|
| Texte.Minuscule | Projet_V2.py:17 | an ASCII capital becomes the letter 32 code points on (`'B'` to `'b'`), the lower-cased character is never a capital, is whitespace exactly when the original is, and a non-capital is unchanged |
| Texte.RognerDebut | Projet_V2.py:17 | `lstrip()` never lengthens the text; `RognerDebutCaracterise` pins down its value |
| Texte.RognerFin | Projet_V2.py:17 | `rstrip()` never lengthens the text; `RognerFinCaracterise` pins down its value |
| Texte.Rogner | Projet_V2.py:17 | `strip()` never lengthens the text |
| Texte.Nettoyer | Projet_V2.py:16-17 | the normal form is no longer than the input, has no capital letter, and neither starts nor ends with whitespace |
| Texte.EstSousChaine | Projet_V2.py:275 | the empty string is in every string, and a string found in `s` is no longer than `s` |
| Texte.EnMinuscules | Projet_V2.py:297 | `lower()` keeps the length and lower-cases each character in place |
| Texte.RognerDebutCaracterise | Projet_V2.py:17 | left strip returns a suffix of the input; everything dropped is whitespace and the result does not start with whitespace |
| Texte.RognerFinCaracterise | Projet_V2.py:17 | right strip returns a prefix of the input; everything dropped is whitespace and the result does not end with whitespace |
| Texte.NettoyerForme | Projet_V2.py:16-17 | a normalised string has no leading or trailing whitespace and no capital letter, and is the lower-cased slice of the input between whitespace-only ends |
| Texte.EnMinusculesIdempotent | Projet_V2.py:17 | lower-casing twice is lower-casing once |
| Texte.RognerDebutMinuscules | Projet_V2.py:17 | left strip commutes with lower-casing |
| Texte.RognerFinMinuscules | Projet_V2.py:17 | right strip commutes with lower-casing |
| Texte.NettoyerCommeRognerMinuscules | Projet_V2.py:17 | normalising equals lower-casing then stripping |
| Texte.NettoyerInsensibleCasse | Projet_V2.py:16-17 | two strings equal up to case normalise to the same string |
| Texte.RognerDebutPrefixeEspaces | Projet_V2.py:17 | a whitespace-only prefix is removed by left strip |
| Texte.RognerFinSuffixeEspaces | Projet_V2.py:17 | a whitespace-only suffix is removed by right strip |
| Texte.RognerDebutConcat | Projet_V2.py:17 | left strip of a concatenation strips into the second part only when the first is all whitespace; otherwise the second part is kept whole |
| Texte.NettoyerIgnoreEspacesEntourants | Projet_V2.py:16-17 | surrounding whitespace does not change the normalised form |
| Texte.NettoyerIdempotent | Projet_V2.py:16-17 | normalising a normalised string changes nothing |
| Texte.EstSousChaineSsiOccurrence | Projet_V2.py:275 | `p in s` holds exactly when `p` occurs at some position of `s` |
| Texte.NettoyerMotMinuscule | Projet_V2.py:261-262 | a word of lower-case letters is its own normal form |
| Texte.MotDisponibilite | Projet_V2.py:281 | the criterion `disponibilite` is already normalised |
| Texte.MotDisponible | Projet_V2.py:45 | the status text `disponible` is already normalised |
| Texte.MotEmprunte | Projet_V2.py:45 | the status text `emprunté` is already normalised |
| Texte.MotTitre | Projet_V2.py:275 | the criterion `titre` is already normalised |
| Modele.Libelle | Projet_V2.py:45 | the status text is `disponible` exactly for an available book, `emprunté` otherwise |
| Modele.StatutPour | Projet_V2.py:45 | the status is `disponible` exactly when the stock is positive |
| Modele.NouveauLivre | Projet_V2.py:37-45 | a new book keeps its fields and the id it is given, clamps a negative stock to 0, and is coherent (stock ≥ 0, status agreeing with stock) |
| Modele.MettreAJourStatut | Projet_V2.py:49-50 | only the status changes, it agrees with the stock afterwards, and a book with non-negative stock becomes coherent |
| Modele.NouvelEmprunt | Projet_V2.py:103-112 | a new loan is out, has no return date, is dated now, and is due exactly 14 days later |
| Modele.Rendu | Projet_V2.py:117-119 | returning marks the loan returned with today's return date, changes nothing else, and keeps it coherent |
| Modele.EnRetard | Projet_V2.py:122-125 | a loan is late exactly when its reference date (now while out, the return date once back) is strictly after the due date |
| Modele.JoursDeRetard | Projet_V2.py:128-132 | days late are never negative, are zero below one full day past the due date, and otherwise are the floor of the elapsed days |
| Modele.RetardEtJours | Projet_V2.py:122-132 | a loan with days of delay is late, and a loan is late exactly when it has days of delay or is overdue by less than one day |
| Modele.EstBibliothecaire | Projet_V2.py:157-158 | a user is a librarian exactly when it was built as a `Bibliothecaire` |
| Modele.RetourApresVingtJours | Projet_V2.py:103-132 | a loan returned 20 days after it was made is late by exactly 6 days, whatever the current time |
| Regles.Inv | Projet_V2.py:145-152 | the invariant of the library's list and dictionaries: stocks non-negative and agreeing with the status, book ids distinct and all handed out by the book counter, users filed under their id with distinct e-mails up to case, every loan coherent, filed under its id and below the loan counter, the per-reader index holding exactly each reader's loans, active loans belonging to a reader and a catalogued book, each reader's `livres_empruntes` equal to the books of its active loans, no two active loans of one book for a reader, at most 3 active loans per reader |
| Regles.MemeOuvrage | Projet_V2.py:178-181 | two books are the same work when their normalised titles and normalised authors are equal |
| Regles.DejaAuCatalogue | Projet_V2.py:178-181 | a book is a duplicate when some catalogued book is the same work |
| Regles.EmprunteEnCours | Projet_V2.py:230-233 | a book is on loan when some loan of it in the ledger is not returned |
| Regles.Confirme | Projet_V2.py:236-237 | the answer confirms exactly when its normalised form is `y`, `yes`, `oui` or `o` |
| Regles.EmailPris | Projet_V2.py:295-299 | an e-mail is taken when some registered user's e-mail equals it after `lower()` on both |
| Regles.NbActifsIndexes | Projet_V2.py:360-365 | the active-loan count over the reader's index counts the indexed loans present in the ledger and not returned, so it never exceeds the index's size |
| Regles.Correspond | Projet_V2.py:274-282 | the four criteria: substring of the normalised title, author or category, or equality with the normalised status; any other criterion matches nothing |
| Regles.Rechercher | Projet_V2.py:258-282 | the search normalises criterion and value, keeps exactly the catalogued books that match, and returns no more books than the catalogue holds |
| Regles.EmpruntsEnCours | Projet_V2.py:435 | the ongoing loans are exactly the loans of the ledger that are not returned |
| Regles.IndiceLivre | Projet_V2.py:163-167 | the lookup finds a book exactly when one has the id, and then returns the first position holding it |
| Regles.Initial | Projet_V2.py:145-152 | a new library is empty and satisfies the invariant |
| Regles.IdsLivresEmis | Projet_V2.py:37-39 | book ids are pairwise distinct and all below the book counter, as every `Livre` takes the next `Livre.Compteur` value |
| Regles.AjouterNouveauLivre | Projet_V2.py:924 | building a book and adding it moves the book counter on by one either way; the book takes the old counter value as id; the refusals and the appended book are those of `ajouter_livre` |
| Regles.AjouterLivre | Projet_V2.py:170-185 | a non-librarian is refused; a librarian is refused exactly when the same normalised title and author is catalogued; refusals change nothing; success appends the book and changes nothing else |
| Regles.Modifie | Projet_V2.py:202-212 | supplied fields replace the old ones and absent ones are kept; the id is kept; a supplied non-negative stock is stored as is and a negative one as 0; the status always agrees with the stock |
| Regles.ModifierLivre | Projet_V2.py:188-214 | non-librarian and unknown id are the only refusals and change nothing; success rewrites only the book with that id |
| Regles.SupprimerLivre | Projet_V2.py:217-244 | the four refusals (not a librarian, unknown id, a loan of the book still out, answer not a confirmation), each exactly under its condition and in this order, change nothing; when all four checks pass the delete succeeds, and it removes exactly that book and keeps the order of the others |
| Regles.AjouterUtilisateur | Projet_V2.py:302-316 | a used id, then an e-mail already present up to case, are the only refusals and change nothing; success files the user under its id |
| Regles.ApresEmprunt | Projet_V2.py:373-389 | a successful borrow files a new active loan under the next id, indexes it under the reader, adds the book to the reader's set, lowers that book's stock by one with its status updated, and leaves every other book, user and loan alone |
| Regles.Emprunter | Projet_V2.py:334-392 | the five checks (reader, book found, copy in stock, not already held, fewer than 3 active loans) are applied in this order, each refusal happening exactly when the earlier checks pass and its own fails; these five are the only refusals, so a borrow that passes all five succeeds; refusals change nothing; success is `ApresEmprunt` |
| Regles.ApresRetour | Projet_V2.py:409-422 | a return marks the loan returned, gives a copy back to the book if it is still catalogued (status updated), removes the book from the reader's set if the borrower is still a reader, and leaves everything else alone |
| Regles.Rendre | Projet_V2.py:396-430 | an unknown loan and an already returned loan are the only refusals and change nothing; otherwise the return is made |
| Regles.Filtrer | Projet_V2.py:268-282 | the search keeps exactly the books that match the criterion, and no more books than there are |
| Regles.BilanDe | Projet_V2.py:458-484 | the book count is the catalogue size, readers plus librarians are all the users, and overdue loans ≤ active loans ≤ all loans |
| Regles.UtilisateursPartages | Projet_V2.py:463-472 | every user is counted once, as a reader or as a librarian |
| Regles.RetardsParmiActifs | Projet_V2.py:475-484 | overdue loans are among the active ones, which are among all loans |
| Conservation.CatalogueSeulConserve | Projet_V2.py:183 | replacing the book list with coherent books that still include every book on loan keeps the invariant |
| Conservation.CompteurLivreConserve | Projet_V2.py:38-39 | moving the book counter on (never back) keeps the invariant |
| Conservation.IdsEmisMemesIds | Projet_V2.py:202-212 | replacing books one for one with books of the same ids keeps the ids distinct and issued |
| Conservation.RetraitGardeLesIds | Projet_V2.py:242 | removing one book keeps the remaining ids distinct and issued |
| Conservation.AjouterLivreConserve | Projet_V2.py:170-185 | adding a coherent book whose id was handed out and is not yet catalogued keeps the invariant |
| Conservation.AjouterNouveauLivreConserve | Projet_V2.py:924 | building a book and adding it keeps the invariant, unique ids included |
| Conservation.ModifierLivreConserve | Projet_V2.py:188-214 | modifying a book keeps the invariant: stock non-negative, status consistent |
| Conservation.RetraitGardeLesPrets | Projet_V2.py:229-242 | removing a book with no active loan leaves every active loan's book catalogued |
| Conservation.SupprimerLivreConserve | Projet_V2.py:217-244 | deleting a book keeps the invariant |
| Conservation.AjouterUtilisateurConserve | Projet_V2.py:302-316 | adding a user who holds no book keeps the invariant, including distinct e-mails |
| Conservation.NbActifsIndexesExact | Projet_V2.py:360-365 | under an exact index, the count through the reader's index is the number of that reader's active loans |
| Conservation.ActifsApresAjout | Projet_V2.py:373-384 | filing a new active loan adds it to its reader's active loans and books, and changes no other reader's |
| Conservation.ActifsApresRetour | Projet_V2.py:409-422 | marking a loan returned removes it and its book from its reader's active loans, and changes no other reader's |
| Conservation.AjoutPretConserve | Projet_V2.py:373-384 | a new loan of a book the reader does not hold, under the cap, keeps held-books exactness, one loan per book and the cap |
| Conservation.ApresEmpruntIndex | Projet_V2.py:373-381 | filing the new loan under the next id and in the reader's index keeps the ledger and the index exact |
| Conservation.NouvelleDetentionConserve | Projet_V2.py:384 | changing a reader's held set keeps the directory coherent |
| Conservation.NouveauStockConserve | Projet_V2.py:388-389 | replacing a book with a coherent one of the same id keeps stocks coherent and the same ids catalogued |
| Conservation.ApresEmpruntActifsValides | Projet_V2.py:373-389 | after a permitted borrow every active loan still belongs to a reader and refers to a catalogued book |
| Conservation.ApresEmpruntConserve | Projet_V2.py:373-389 | the effects of a permitted borrow keep the invariant |
| Conservation.EmprunterConserve | Projet_V2.py:334-392 | borrowing keeps the invariant, so stock stays ≥ 0 and no reader exceeds 3 active loans |
| Conservation.ApresRetourConserve | Projet_V2.py:409-422 | the effects of returning an active loan keep the invariant |
| Conservation.RendreConserve | Projet_V2.py:396-430 | returning keeps the invariant |
| Gestion.Compter | Projet_V2.py:463-466 | the counting loop returns the number of keys that satisfy the test |
| Gestion.Bibliotheque.constructor | Projet_V2.py:145-152 | a new library is empty, satisfies the invariant and keeps its name and address |
| Gestion.Bibliotheque.CreerLivre | Projet_V2.py:37-45 | a created book takes the counter's id, the counter moves on by one, and the invariant holds |
| Gestion.Bibliotheque.TrouverLivreParId | Projet_V2.py:163-167 | the loop returns the position of the first book with the id, or nothing when there is none |
| Gestion.Bibliotheque.ChercherDoublon | Projet_V2.py:178-181 | the scan finds a duplicate exactly when a catalogued book has the same normalised title and author |
| Gestion.Bibliotheque.AjouterLivre | Projet_V2.py:170-185 | for a book built by the library's counter and not added yet, the library ends as `Regles.AjouterLivre` says and keeps the invariant |
| Gestion.Bibliotheque.AjouterNouveauLivre | Projet_V2.py:924 | building the book with `CreerLivre` then adding it leaves the library as `Regles.AjouterNouveauLivre` says, and keeps the invariant |
| Gestion.Bibliotheque.ModifierLivre | Projet_V2.py:188-214 | the library ends as `Regles.ModifierLivre` says and keeps the invariant |
| Gestion.Bibliotheque.LivreEnCoursDEmprunt | Projet_V2.py:230-233 | the scan answers yes exactly when a loan of the book is still out |
| Gestion.Bibliotheque.SupprimerLivre | Projet_V2.py:217-244 | the library ends as `Regles.SupprimerLivre` says and keeps the invariant |
| Gestion.Bibliotheque.RechercherLivre | Projet_V2.py:258-282 | the loop collects exactly the matching books in catalogue order, as `Regles.Rechercher` |
| Gestion.Bibliotheque.TrouverUtilisateurParEmail | Projet_V2.py:295-299 | a user found is registered and has the e-mail up to case; nothing is found exactly when no user has it |
| Gestion.Bibliotheque.AjouterUtilisateur | Projet_V2.py:302-316 | the library ends as `Regles.AjouterUtilisateur` says and keeps the invariant |
| Gestion.Bibliotheque.CompterActifs | Projet_V2.py:360-365 | the loop counts the reader's indexed loans that are not returned |
| Gestion.Bibliotheque.EmprunterLivre | Projet_V2.py:334-392 | the library ends as `Regles.Emprunter` says and keeps the invariant |
| Gestion.Bibliotheque.Preter | Projet_V2.py:373-389 | the in-place updates of a borrow leave the library as `Regles.ApresEmprunt` says |
| Gestion.Bibliotheque.RendreLivre | Projet_V2.py:396-430 | the library ends as `Regles.Rendre` says and keeps the invariant |
| Gestion.Bibliotheque.Retourner | Projet_V2.py:409-422 | the in-place updates of a return leave the library as `Regles.ApresRetour` says |
| Gestion.Bibliotheque.ListerEmpruntsEnCours | Projet_V2.py:434-435 | every listed loan is registered and not returned, and every registered loan not returned is listed |
| Gestion.Bibliotheque.Statistiques | Projet_V2.py:458-484 | the counting loops produce the counts of `Regles.BilanDe` |
| Proprietes.RetourRestaureLivres | Projet_V2.py:388-418 | returning the loan just made gives back the book list exactly, stock and status included |
| Proprietes.RetourRestaureLecteurs | Projet_V2.py:384-422 | returning the loan just made gives back the directory exactly, the reader's set included |
| Proprietes.EmprunterPuisRendre | Projet_V2.py:334-430 | after a successful borrow the new loan can be returned, and the catalogue and directory are then as before |
| Proprietes.SecondRetourRefuse | Projet_V2.py:404-406 | a second return of the same loan is refused as already returned and changes nothing |
| Proprietes.EmpruntAuDelaDuPlafond | Projet_V2.py:360-369 | a reader with 3 active loans cannot borrow; if the first four checks pass the refusal is the limit, and nothing changes |
| Proprietes.CardinalImageInjective | Projet_V2.py:384 | distinct loans with distinct books give as many books as loans |
| Proprietes.DetenusCommeActifs | Projet_V2.py:355-384 | a reader holds exactly as many books as it has active loans, at most 3 |
| Proprietes.AjoutSansDoublon | Projet_V2.py:177-183 | adding a book never creates two entries with the same normalised title and author |
| Proprietes.NouveauLivreIdFrais | Projet_V2.py:38-39 | under the invariant a newly built and added book takes an id no catalogued book had, and the lookup by that id finds it at the end of the list |
| Proprietes.SuppressionRetireLeLivre | Projet_V2.py:242 | under the invariant a successful delete shortens the list by one and no book with that id is left |
| Proprietes.ModificationPeutDoublonner | Projet_V2.py:188-214 | renaming a book after another one is accepted and leaves two entries for the same work |
| Proprietes.DoublonMalgreCasseEtEspaces | Projet_V2.py:177-181 | a book whose title differs only in case and surrounding whitespace, and whose author differs only in case, is refused as a duplicate and nothing changes |
| Proprietes.CorrespondDisponible | Projet_V2.py:272-282 | a coherent book matches `disponibilite` = `disponible` exactly when it has a copy in stock |
| Proprietes.FiltrerDisponibles | Projet_V2.py:268-282 | filtering coherent books on availability keeps exactly those in stock |
| Proprietes.RechercheDisponibles | Projet_V2.py:258-282 | searching `disponibilite` / `disponible` finds exactly the books in stock |
| Proprietes.RechercheParTitre | Projet_V2.py:258-276 | searching by title finds exactly the books whose normalised title contains the normalised value |
| Proprietes.ActifsDeBornes | Projet_V2.py:475-478 | readers under the cap hold at most 3 active loans each in total |
| Proprietes.BilanPlafond | Projet_V2.py:458-478 | under the invariant the active-loan count is at most 3 times the reader count |
| Proprietes.ScenarioExemplaireUnique | Projet_V2.py:334-392 | with one copy, a first borrow succeeds, leaves stock 0 and status `emprunté`, and then both the same reader and another reader are refused for lack of stock |
| Proprietes.ScenarioSuppressionLivreEmprunte | Projet_V2.py:217-244 | once a book is lent, deleting it is refused as on loan, whatever the answer, and it stays catalogued |
| Constats.NbActifsTelQuEcrit | Projet_V2.py:360-365 | as written, the active-loan count either raises or is 0 |
| Constats.EmprunterTelQuEcrit | Projet_V2.py:334-392 | as written, the borrow raises only after the reader, book, stock and already-held checks pass, and a refusal changes nothing |
| Constats.NbActifsTelQuEcritLeve | Projet_V2.py:362-364 | as written, the count raises exactly when the reader has ever borrowed, and otherwise the reader has no active loan |
| Constats.EmprunterTelQuEcritLeve | Projet_V2.py:334-392 | as written, a borrow that passes the first four checks raises exactly when the reader has any loan on record; when it does not raise it agrees with `Regles.Emprunter` |
| Constats.EmpruntAccepte | Projet_V2.py:334-392 | under an exact index, a borrow by a registered reader under the cap, of a catalogued book in stock that the reader does not hold, succeeds with the state of `Regles.ApresEmprunt` |
| Constats.SecondEmpruntLeve | Projet_V2.py:364 | whenever a reader with at most one active loan borrows two different available books in a row, the first borrow succeeds under `Regles.Emprunter`, and the second raises as written while `Regles.Emprunter` accepts it |
| Constats.BilanTelQuEcrit | Projet_V2.py:475-484 | as written, `statistiques` raises exactly when there is at least one loan, and otherwise reports no active or overdue loan |
| Constats.StatistiquesLeventApresEmprunt | Projet_V2.py:477 | after any successful borrow, `statistiques` as written raises, while `Regles.BilanDe` reports at least one active loan |

## Left out

- Console output is not modelled: `print`, `afficher`, `afficher_tous_les_livres`,
  `afficher_utilisateurs`, and the late notice printed by `rendre_livre` (lines
  427-429). It has no effect on the state.
- The menu, the `input` prompts, `demander_int`, `initialiser_bibliotheque`, the
  CSV/JSON/pandas persistence and the charts are not modelled. They are I/O outside the
  core. The deletion prompt's answer is the parameter `reponse`.
- `lister_emprunts_par_lecteur` is not modelled. It only prints the reader's index.
- The clock (`datetime.now()`) is the parameter `maintenant`, in whole seconds.
  Microseconds are not modelled.
- `Utilisateur.__del__` is not modelled. It only prints.
- `Texte.Nettoyer`, `Texte.EnMinuscules`: only ASCII whitespace and ASCII capitals are
  normalised. Unicode whitespace, the full `casefold` mapping (for example `ß`) and the
  Unicode `str.lower()` used for e-mails (lines 297 and 309) are not modelled.
- `Texte.Nettoyer`: the `S or ""` guard for `None` is not modelled. Strings are never
  `None` here.
- `Regles.Modifie`: `int()` failing on a non-numeric `exemplaires` is not modelled. The
  field is an integer.
- `Modele.NouveauLivre`: `int()` failing on a non-numeric stock is not modelled, for the
  same reason.
- Books, users and loans are values. A caller holding a reference to a `Livre` that the
  library later updates in place (aliasing) is not modelled.
- `Gestion.Bibliotheque.TrouverUtilisateurParEmail`: returns some user with a matching
  e-mail, not necessarily the first in dictionary order. The invariant keeps e-mails
  distinct up to case, so at most one user matches in an invariant-satisfying library.
- `Gestion.Bibliotheque.AjouterLivre`: requires a coherent book whose id the library's
  counter handed out and that is not catalogued yet, as `Livre.__init__` builds one just
  before the call (lines 520-538, 924; `Gestion.Bibliotheque.AjouterNouveauLivre` does
  both steps). A book object whose stock was changed by hand before being added, and
  adding again a `Livre` object already in the list, are not modelled.
- `Gestion.Bibliotheque.AjouterUtilisateur`: requires a new reader to hold no book, as
  `Lecteur.__init__` builds one.
- `Gestion.Bibliotheque.RechercherLivre`: returns the result list. The "no result"
  message and the printing are not modelled.
- `Gestion.Bibliotheque.ListerEmpruntsEnCours`: states which loans are listed, not their
  order. The order is the dictionary's iteration order.
- `Gestion.Bibliotheque.Statistiques`: returns the five counts instead of printing them.
- The id counters belong to the library rather than to the classes. Two libraries in one
  process would share the source's counters; the model gives each library its own.
- `modifier_livre` does not check for duplicates (lines 188-214). The model keeps that
  behaviour, and `Proprietes.ModificationPeutDoublonner` exhibits it.

## Findings

| source | as written | input that shows it | evidently intended | confidence | as-written member | corrected member |
|---|---|---|---|---|---|---|
| Projet_V2.py:364 | the active-loan count reads `emprunt_enregistre.est_retourne`, an attribute `Emprunt` never defines (it has `retourne`), so `AttributeError` is raised as soon as the reader's index holds a loan | a registered reader with no loan on record borrows one available book, then a second available book: the second call raises instead of succeeding | count the loans with `not emprunt_enregistre.retourne`, so that a reader may hold up to 3 loans | high (not executed) | Constats.SecondEmpruntLeve | Regles.Emprunter |
| Projet_V2.py:477-483 | `statistiques` reads `emprunt.est_retourne` in both loan-counting loops, so it raises on the first loan of the ledger | any library after one successful borrow | count active and overdue loans with `not emprunt.retourne` | high (not executed) | Constats.StatistiquesLeventApresEmprunt | Regles.BilanDe |
