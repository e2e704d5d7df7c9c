# Player administration core, modelled in Dafny

This project models the request handlers of the game-administration REST
controller (`PlayerRestController`). The controller keeps a store of player
records keyed by identifier. It offers six requests: list, count, get, create,
update and delete. Around them sit:

- five field validators (identifier, name, title, birthday, experience);
- the progression calculator, which turns experience into a level and the
  points still missing to the next level;
- the filter builder `makeSpecification`, which folds eleven optional query
  criteria into one conjunctive predicate over players.

Modules, one per component of the controller:

- `Wrappers` (`wrappers.dfy`): `Option`, standing for a Java reference that may be `null`.
- `Validation` (`validation.dfy`): the validators and their constants.
- `Progression` (`progression.dfy`): `Level` and `UntilNextLevel`.
  `Level` is the source's closed formula evaluated with an exact integer square root.
  It is proved to be the largest level `L >= 0` with `50 * L * (L + 1) <= e`.
- `Players` (`players.dfy`): the stored record, the request body (every field
  optional), and the specification functions `Created` and `Updated`.
  Those two say which record a create or update produces.
- `Filters` (`filters.dfy`): the criteria record, the predicate fragments, the
  specification built by `and`-ing fragments onto the always-true literal, and the
  reference meaning `Matches`.
- `Controller` (`controller.dfy`): the `PlayerStore` class, whose `players`
  map the handlers read and reassign. It also holds the page request of a
  listing and the specification of what the store returns for it.

Each handler returns a `Status`: `Ok`, `BadRequest`, `NotFound`, or `ServerError`.
In this model `ServerError` arises only when the page request throws; other exceptions are listed under "Left out".

Notes on the code's behaviour:

- Names and titles are measured as Java's `String.length()` measures them, in UTF-16 code units: a character outside the Basic Multilingual Plane (an emoji, say) counts twice.
- The upper birthday bound is 3000-12-31T00:00, the start of that day, as `new GregorianCalendar(3000, DECEMBER, 31)` gives (line 276).
- An update checks the body's presence together with the identifier, before the lookup. So an absent body on a missing id is `BadRequest`.
- A missing id with a present but invalid body is `NotFound`, because the lookup comes before field validation.
- `makeSpecification`'s fallbacks to an always-true specification when the accumulated specification is `null` (lines 197-198 and the nine like them) can never fire. The accumulator starts non-null at line 187, and `and` never returns `null`. The model is therefore the plain left fold of `and`.

## Model

| member | source | states |
|---|---|---|
| `Validation.IsIdValid` | src/main/java/com/game/controller/PlayerRestController.java:258-261 | an id is valid iff present and > 0 |
| `Validation.Utf16Length` | src/main/java/com/game/controller/PlayerRestController.java:265 | the length `String.length()` reports: between the character count and twice it, equal to it for plain BMP text, twice it for text made only of supplementary characters, zero only for the empty string |
| `Validation.IsNameValid` | src/main/java/com/game/controller/PlayerRestController.java:263-266 | a name is valid iff present with 1..12 UTF-16 units |
| `Validation.IsTitleValid` | src/main/java/com/game/controller/PlayerRestController.java:268-271 | a title is valid iff present with at most 30 UTF-16 units (empty allowed) |
| `Validation.IsDateValid` | src/main/java/com/game/controller/PlayerRestController.java:273-277 | a birthday is valid iff present and strictly between the 2000-01-01 and 3000-12-31 bounds |
| `Validation.IsExperienceValid` | src/main/java/com/game/controller/PlayerRestController.java:279-282 | experience is valid iff present and in [0, 10 000 000] |
| `Validation.NameLengthBoundary` | src/main/java/com/game/controller/PlayerRestController.java:263-266 | 12 UTF-16 units pass; 13 units, the empty name and an absent name fail; for BMP text the bound is 1..12 characters |
| `Validation.SupplementaryCharactersCountTwice` | src/main/java/com/game/controller/PlayerRestController.java:263-266 | a name of seven emoji (14 UTF-16 units) is rejected |
| `Validation.BoundaryValues` | src/main/java/com/game/controller/PlayerRestController.java:268-277 | the empty title passes; a birthday exactly on either bound fails, one millisecond inside passes |
| `Progression.IntSqrt` | src/main/java/com/game/controller/PlayerRestController.java:285 | the square root used by the level formula: r*r <= n < (r+1)*(r+1) |
| `Progression.Level` | src/main/java/com/game/controller/PlayerRestController.java:284-286 | the level of e lies in its bracket: 50·L·(L+1) <= e < 50·(L+1)·(L+2) |
| `Progression.LevelIsLargest` | src/main/java/com/game/controller/PlayerRestController.java:284-286 | 50·L·(L+1) <= e iff L <= Level(e), so Level(e) is the largest such L |
| `Progression.LevelUnique` | src/main/java/com/game/controller/PlayerRestController.java:284-286 | any L whose bracket contains e is Level(e) |
| `Progression.LevelMonotone` | src/main/java/com/game/controller/PlayerRestController.java:284-286 | level is non-decreasing in experience |
| `Progression.UntilNextLevel` | src/main/java/com/game/controller/PlayerRestController.java:288-290 | experience plus the points returned reach exactly the start of level L+1 |
| `Progression.LevelStartMonotone` | src/main/java/com/game/controller/PlayerRestController.java:288-290 | the experience at which a level starts grows with the level |
| `Progression.UntilNextLevelBounds` | src/main/java/com/game/controller/PlayerRestController.java:288-290 | the points to the next level are between 1 and 100·(L+1), and are the start of level L+1 minus e |
| `Progression.StartingValues` | src/main/java/com/game/controller/PlayerRestController.java:284-290 | level(0) = 0 and untilNextLevel(0) = 100 |
| `Progression.LevelOf750` | src/main/java/com/game/controller/PlayerRestController.java:284-290 | 750 points give level 3 with 250 points to go |
| `Progression.ValidRangeFitsInt32` | src/main/java/com/game/controller/PlayerRestController.java:279-290 | for valid experience the level is <= 446 and every int the calculator computes stays below 2^31 |
| `Players.Created` | src/main/java/com/game/controller/PlayerRestController.java:77-91 | the created record copies the body, has banned = false unless the body says true, has derived level and progress, and is well formed |
| `Players.CreationIsValid` | src/main/java/com/game/controller/PlayerRestController.java:85-87 | an accepted creation body supplies name, title, race, profession, birthday and experience |
| `Players.UpdateIsValid` | src/main/java/com/game/controller/PlayerRestController.java:116-120 | an empty update body and every acceptable creation body pass the update check |
| `Players.UncheckedFields` | src/main/java/com/game/controller/PlayerRestController.java:83-120 | `banned` is never checked, and an update never checks race or profession |
| `Players.Updated` | src/main/java/com/game/controller/PlayerRestController.java:122-133 | each of name, title, race, profession, birthday, banned and experience takes the supplied value and otherwise keeps the stored one; the id is kept; level and progress are recomputed iff experience is supplied; an empty update is the identity; well-formedness is kept |
| `Players.UpdateIdempotent` | src/main/java/com/game/controller/PlayerRestController.java:122-133 | applying the same accepted update twice equals applying it once |
| `Filters.Contains` | src/main/java/com/game/controller/PlayerRestController.java:189-196 | the `LIKE '%x%'` test: an empty pattern, a prefix and a suffix are found; nothing longer than the text is found |
| `Filters.Holds` | src/main/java/com/game/controller/PlayerRestController.java:189-252 | each fragment accepts exactly the players that meet its one criterion in the reference meaning `Matches`: substring for name and title, equality for race, profession and banned, inclusive bounds for birthday, experience and level |
| `Filters.AndIf` | src/main/java/com/game/controller/PlayerRestController.java:189-193 | one fold step: the extended specification holds iff the old one holds and, when supplied, the new fragment holds |
| `Filters.MakeSpecification` | src/main/java/com/game/controller/PlayerRestController.java:175-255 | with no criterion supplied the result is the always-true literal |
| `Filters.OnlySomeCriterionNarrows` | src/main/java/com/game/controller/PlayerRestController.java:175-255 | any supplied criterion adds a fragment, so the result is not the always-true literal |
| `Filters.MakeSpecificationMeaning` | src/main/java/com/game/controller/PlayerRestController.java:175-255 | a player satisfies the built specification iff it meets every supplied criterion (inclusive ranges, substring match) |
| `Filters.NoCriteriaMatchesEveryone` | src/main/java/com/game/controller/PlayerRestController.java:187-188 | with no criteria the specification is the always-true literal and matches everyone |
| `Filters.EmptyExperienceRangeMatchesNoOne` | src/main/java/com/game/controller/PlayerRestController.java:230-241 | min experience above max experience matches no player |
| `Filters.SatisfiesAll` | src/main/java/com/game/controller/PlayerRestController.java:187-255 | a specification holds iff every one of its fragments holds |
| `Filters.OrderIndependent` | src/main/java/com/game/controller/PlayerRestController.java:187-255 | two specifications with the same fragments in any order accept the same players |
| `Filters.Conjoin` | src/main/java/com/game/controller/PlayerRestController.java:192 | `and` of two specifications has the fragments of both, in order |
| `Filters.ConjoinMeaning` | src/main/java/com/game/controller/PlayerRestController.java:192 | `and` accepts exactly the players both sides accept |
| `Filters.ConjoinIdentity` | src/main/java/com/game/controller/PlayerRestController.java:187-192 | the always-true specification is a left and right identity of `and` |
| `Filters.AndIsConjoin` | src/main/java/com/game/controller/PlayerRestController.java:189-252 | each fold step `spec.and(fragment)` is the conjunction of the accumulator with a one-fragment specification |
| `Filters.ConjoinCommutes` | src/main/java/com/game/controller/PlayerRestController.java:192 | `and` is commutative in what it accepts |
| `Filters.CombineNarrows` | src/main/java/com/game/controller/PlayerRestController.java:175-255 | adding criteria only narrows the match |
| `Filters.CombineIsConjunction` | src/main/java/com/game/controller/PlayerRestController.java:175-255 | for two disjoint groups of criteria, a player matches both supplied together iff it matches each group |
| `Filters.CombineNarrowsOther` | src/main/java/com/game/controller/PlayerRestController.java:175-255 | for disjoint groups, meeting the combination implies meeting the second group |
| `Filters.CombineJoins` | src/main/java/com/game/controller/PlayerRestController.java:175-255 | meeting both groups implies meeting their combination |
| `Filters.CombineCommutes` | src/main/java/com/game/controller/PlayerRestController.java:175-255 | combining disjoint criteria does not depend on their order |
| `Controller.ListQuery` | src/main/java/com/game/controller/PlayerRestController.java:46-53 | listing defaults to page 0, size 3, order by id; uses the criteria's specification; a negative page or size < 1 is a server error |
| `Controller.StringLe` | src/main/java/com/game/controller/PlayerRestController.java:53 | sorting by name uses code-point lexicographic order, in which a prefix comes first |
| `Controller.StringLeTotal` | src/main/java/com/game/controller/PlayerRestController.java:53 | any two names are ordered one way or the other |
| `Controller.StringLeTransitive` | src/main/java/com/game/controller/PlayerRestController.java:53 | the name order is transitive |
| `Controller.KeyLe` | src/main/java/com/game/controller/PlayerRestController.java:53 | the sort key of each `PlayerOrder` (id, name, experience, birthday, level); every player may stand next to itself; by id it is the id order |
| `Controller.KeyLeTotal` | src/main/java/com/game/controller/PlayerRestController.java:53 | every ordering is total |
| `Controller.KeyLeTransitive` | src/main/java/com/game/controller/PlayerRestController.java:53 | every ordering is transitive |
| `Controller.MatchingIds` | src/main/java/com/game/controller/PlayerRestController.java:167-170 | the ids counted are stored ids; with the always-true specification, all of them |
| `Controller.IsListing` | src/main/java/com/game/controller/PlayerRestController.java:55 | the store's answer is a page of the sorted matches, never longer than the page size |
| `Controller.Slice` | src/main/java/com/game/controller/PlayerRestController.java:53-55 | a page is the entries from page·size on, at most size of them |
| `Controller.ListingMembers` | src/main/java/com/game/controller/PlayerRestController.java:46-55 | every listed player is stored and satisfies the query's specification |
| `Controller.ListingLength` | src/main/java/com/game/controller/PlayerRestController.java:49-55 | a page holds min(size, count − page·size) players, or none past the end |
| `Controller.ListingAgreesWithCount` | src/main/java/com/game/controller/PlayerRestController.java:167-172 | listing and count use the same predicate: listed players match the criteria, no more than the count |
| `Controller.ApplyUpdate` | src/main/java/com/game/controller/PlayerRestController.java:122-133 | the setter sequence produces exactly `Updated(stored, body)` |
| `Controller.PlayerStore.GetPlayer` | src/main/java/com/game/controller/PlayerRestController.java:60-70 | BadRequest iff the id is invalid; NotFound iff valid and absent; otherwise the stored player |
| `Controller.PlayerStore.CreatePlayer` | src/main/java/com/game/controller/PlayerRestController.java:72-96 | Ok iff the body is present and valid; on Ok exactly one new entry `Created(body, id)` under a fresh id; otherwise BadRequest and nothing changes; well-formedness kept |
| `Controller.PlayerStore.UpdatePlayer` | src/main/java/com/game/controller/PlayerRestController.java:98-138 | BadRequest for an invalid id or absent body, then NotFound for a missing id (before body checks), then BadRequest for any invalid supplied field with the store unchanged; on Ok only that entry becomes `Updated(old, body)` |
| `Controller.PlayerStore.DeletePlayer` | src/main/java/com/game/controller/PlayerRestController.java:140-152 | BadRequest iff id invalid; NotFound iff absent; on Ok exactly that id is removed and every other entry is unchanged |
| `Controller.PlayerStore.PlayerCount` | src/main/java/com/game/controller/PlayerRestController.java:154-173 | the count of stored players the criteria's specification accepts; never more than the store size; all of them with no criteria |

## Left out

- `PlayerService` and `PlayerServiceImpl` only delegate to a Spring Data repository. That repository is not part of this model; its place is taken by the `players` map.
  - `save` becomes a map update.
  - `delete` becomes a key removal.
  - `getPlayerById` becomes a lookup.
- Identifier generation: the store hands out identifiers from an increasing counter, `nextId`. The id, level and progress a create body may carry are not modelled. The model ignores any id in the body; the database's treatment of such an id (merge versus insert) is out of scope.
- Sorting and paging: these are done by the database and are only SPECIFIED (`IsListing`): a page is a slice of some sequence of all matching players, sorted by the requested key. The database's tie order is left open. Ordering by name is fixed to code-point lexicographic order (`StringLe`); a database collation that orders names differently (case-insensitively, say) is not modelled, and for such a store `IsListing` does not describe the page it returns. The mapping of `PlayerOrder` constants to property names (`order.name().toLowerCase()`) is not modelled.
- `PlayerOrder.java`, `Race.java`, `Profession.java` and `Player.java` are not part of this model.
  - Races and professions are identified by their ordinal.
  - The orderings are id, name, experience, birthday and level.
- Controller.PlayerStore.PlayerCount: does not model the narrowing of the repository's `long` count to `Integer` in `PlayerServiceImpl.getCount`, because stores of 2^31 players are out of scope.
- The name and title filters use SQL `LIKE '%x%'`. They are modelled as plain substring containment; the wildcard characters `%` and `_` inside the criterion, and case folding by the database collation, are not modelled.
- A Java `String` may hold an unpaired surrogate (a JSON `"\uD83D"` escape, say), which `length()` counts as one unit. A Dafny `char` is a Unicode scalar value and cannot hold one, so such names and titles cannot be represented in the model.
- Progression.Level: uses the exact integer square root instead of `Math.sqrt` on doubles. For experience up to 10 000 000 the argument is at most 2 000 002 500. A perfect square's double root is exact, and every other root stays more than 10^-5 away from the next integer, far more than a double's rounding error, so both computations truncate to the same level.
- Birthdays are epoch milliseconds; the two bounds are the UTC values of 2000-01-01 and 3000-12-31. `GregorianCalendar` uses the server's default time zone, which is not modelled.
- Java's `Integer` and `Long` widths are not modelled for request parameters and ids; all integers are unbounded. Where the calculator computes in `int`, `ValidRangeFitsInt32` shows no overflow can happen.
- The Java `Player` is a mutable object that the handler returns after saving it. Here it is a value copied into the map, so aliasing between the returned object and the stored one is not modelled.
- Exceptions from the repository (`save`, `findAll`, `deleteById`, `count`) escape the handlers and end as HTTP 500 in the source. The store here never fails, so `ServerError` appears only for a refused page request.
- HTTP mechanics (`ResponseEntity`, request binding, JSON) are not modelled. A request parameter that fails to bind is rejected by Spring before the handler runs; that case is not modelled either.
