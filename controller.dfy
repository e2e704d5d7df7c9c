/**
 * The player controller: the six request handlers over a store of players keyed
 * by identifier. Each handler answers with a status (the HTTP status code the
 * transport sends) and, where the source returns one, a player.
 */
module Controller {
  import opened Wrappers
  import opened Validation
  import opened Progression
  import opened Players
  import opened Filters

  /** The response statuses: 200, 400, 404, and an exception that escapes the handler. */
  datatype Status = Ok | BadRequest | NotFound | ServerError

  /** The orderings a listing may request, one per sortable player property. */
  datatype PlayerOrder = ById | ByName | ByExperience | ByBirthday | ByLevel

  /** A zero-based page of `size` entries, sorted by `order`. */
  datatype Pageable = Pageable(page: int, size: int, order: PlayerOrder)

  /** What a listing hands to the store: the filter and the page wanted. */
  datatype Query = Query(spec: Spec, pageable: Pageable)

  const DefaultPageNumber := 0
  const DefaultPageSize := 3
  const DefaultOrder := ById

  /**
   * `getAllPlayers` up to the store call: the specification built from the
   * criteria, and the page request with page 0, size 3 and order by id for the
   * omitted parameters. The page request refuses a negative page or a size below
   * one by throwing, which escapes as `ServerError`.
   */
  function ListQuery(c: Criteria, order: Option<PlayerOrder>, pageNumber: Option<int>, pageSize: Option<int>)
    : (r: (Status, Query))
    ensures r.0 == Ok <==> pageNumber.GetOr(0) >= 0 && pageSize.GetOr(3) >= 1
    ensures r.0 != Ok ==> r.0 == ServerError
    ensures pageNumber.None? && pageSize.None? ==> r.0 == Ok && r.1.pageable.page == 0 && r.1.pageable.size == 3
    ensures order.None? ==> r.1.pageable.order == ById
    ensures order.Some? ==> r.1.pageable.order == order.value
    ensures pageNumber.Some? ==> r.1.pageable.page == pageNumber.value
    ensures pageSize.Some? ==> r.1.pageable.size == pageSize.value
    ensures r.1.spec == MakeSpecification(c)
  {
    var number := if pageNumber.None? then DefaultPageNumber else pageNumber.value;
    var size := if pageSize.None? then DefaultPageSize else pageSize.value;
    var sortBy := if order.None? then DefaultOrder else order.value;
    var query := Query(MakeSpecification(c), Pageable(number, size, sortBy));
    if number < 0 || size < 1 then (ServerError, query) else (Ok, query)
  }

  /** Lexicographic order on strings, by code point; a prefix comes first. */
  predicate StringLe(a: string, b: string): (le: bool)
    ensures a <= b ==> le
    ensures le && a != [] ==> b != [] && a[0] <= b[0]
  {
    a == [] || (b != [] && (a[0] < b[0] || (a[0] == b[0] && StringLe(a[1..], b[1..]))))
  }

  /** Any two strings are ordered one way or the other. */
  lemma {:induction false} StringLeTotal(a: string, b: string)
    ensures StringLe(a, b) || StringLe(b, a)
  {
    if a != [] && b != [] && a[0] == b[0] {
      StringLeTotal(a[1..], b[1..]);
    }
  }

  /** The string order is transitive. */
  lemma {:induction false} StringLeTransitive(a: string, b: string, c: string)
    requires StringLe(a, b) && StringLe(b, c)
    ensures StringLe(a, c)
  {
    if a != [] && a[0] == b[0] && b[0] == c[0] {
      StringLeTransitive(a[1..], b[1..], c[1..]);
    }
  }

  /** `a` may come before `b` when sorting by `order`; every player may stand next to itself. */
  predicate KeyLe(a: Player, b: Player, order: PlayerOrder): (le: bool)
    ensures a == b ==> le
    ensures order == ById ==> (le <==> a.id <= b.id)
  {
    match order
    case ById => a.id <= b.id
    case ByName => StringLe(a.name, b.name)
    case ByExperience => a.experience <= b.experience
    case ByBirthday => a.birthday <= b.birthday
    case ByLevel => a.level <= b.level
  }

  /** Every ordering is total, so every store has a sorted enumeration. */
  lemma KeyLeTotal(a: Player, b: Player, order: PlayerOrder)
    ensures KeyLe(a, b, order) || KeyLe(b, a, order)
  {
    StringLeTotal(a.name, b.name);
  }

  /** Every ordering is transitive. */
  lemma KeyLeTransitive(a: Player, b: Player, c: Player, order: PlayerOrder)
    requires KeyLe(a, b, order) && KeyLe(b, c, order)
    ensures KeyLe(a, c, order)
  {
    if order == ByName {
      StringLeTransitive(a.name, b.name, c.name);
    }
  }

  /** The identifiers of the stored players that satisfy `spec`. */
  function MatchingIds(store: map<int, Player>, spec: Spec): (ids: set<int>)
    ensures ids <= store.Keys
    ensures spec == Always ==> ids == store.Keys
  {
    set id | id in store && Satisfies(spec, store[id])
  }

  /** The identifiers of the players in `s`. */
  function IdsOf(s: seq<Player>): (ids: set<int>)
  {
    if s == [] then {} else {s[0].id} + IdsOf(s[1..])
  }

  /** An identifier is in `IdsOf(s)` exactly when some entry of `s` carries it. */
  lemma {:induction false} IdsOfMembers(s: seq<Player>, id: int)
    ensures id in IdsOf(s) <==> exists i :: 0 <= i < |s| && s[i].id == id
  {
    if s != [] {
      IdsOfMembers(s[1..], id);
      if exists i :: 0 <= i < |s| && s[i].id == id {
        var i :| 0 <= i < |s| && s[i].id == id;
        if i > 0 { assert s[1..][i - 1].id == id; }
      }
      if exists i :: 0 <= i < |s[1..]| && s[1..][i].id == id {
        var i :| 0 <= i < |s[1..]| && s[1..][i].id == id;
        assert s[i + 1].id == id;
      }
    }
  }

  /** No two entries of `s` share an identifier. */
  predicate DistinctIds(s: seq<Player>)
  {
    forall i, j :: 0 <= i < j < |s| ==> s[i].id != s[j].id
  }

  /**
   * `s` lists every stored player that satisfies `spec`, each once, exactly as
   * stored, in the order the store sorts by.
   */
  ghost predicate IsSortedMatching(store: map<int, Player>, spec: Spec, order: PlayerOrder, s: seq<Player>)
  {
    && DistinctIds(s)
    && (forall i :: 0 <= i < |s| ==> s[i].id in store && store[s[i].id] == s[i])
    && IdsOf(s) == MatchingIds(store, spec)
    && (forall i, j :: 0 <= i < j < |s| ==> KeyLe(s[i], s[j], order))
  }

  /** Entries `page * size` up to `page * size + size` of `s`, cut off at its end. */
  function Slice(s: seq<Player>, page: nat, size: nat): (r: seq<Player>)
    ensures |r| == if |s| <= page * size then 0
                   else if |s| - page * size < size then |s| - page * size else size
    ensures forall i :: 0 <= i < |r| ==> r[i] == s[page * size + i]
  {
    var from := if |s| < page * size then |s| else page * size;
    var to := if |s| < from + size then |s| else from + size;
    s[from..to]
  }

  /**
   * The store's answer to a query: one page of the sorted sequence of the
   * matching players. The store computes it; this model only states it.
   */
  ghost predicate IsListing(store: map<int, Player>, q: Query, result: seq<Player>): (listed: bool)
    requires q.pageable.page >= 0 && q.pageable.size >= 1
    ensures listed ==> |result| <= q.pageable.size
  {
    exists s :: IsSortedMatching(store, q.spec, q.pageable.order, s) &&
                result == Slice(s, q.pageable.page, q.pageable.size)
  }

  /** A sequence of distinct identifiers has as many identifiers as entries. */
  lemma {:induction false} DistinctIdsCount(s: seq<Player>)
    requires DistinctIds(s)
    ensures |IdsOf(s)| == |s|
  {
    if s != [] {
      var rest := s[1..];
      assert DistinctIds(rest) by {
        forall i, j | 0 <= i < j < |rest| ensures rest[i].id != rest[j].id {
          assert rest[i] == s[i + 1] && rest[j] == s[j + 1];
        }
      }
      DistinctIdsCount(rest);
      IdsOfMembers(rest, s[0].id);
    }
  }

  /** Every entry of a sorted listing of the matches is a stored player that satisfies `spec`. */
  lemma SortedMatchingMember(store: map<int, Player>, spec: Spec, order: PlayerOrder, s: seq<Player>, k: nat)
    requires IsSortedMatching(store, spec, order, s)
    requires k < |s|
    ensures s[k].id in store && store[s[k].id] == s[k] && Satisfies(spec, s[k])
  {
    IdsOfMembers(s, s[k].id);
    assert s[k].id in MatchingIds(store, spec);
  }

  /** The sorted sequence of matches that a listing page was cut from. */
  lemma ListingSource(store: map<int, Player>, q: Query, page: seq<Player>) returns (s: seq<Player>)
    requires q.pageable.page >= 0 && q.pageable.size >= 1
    requires IsListing(store, q, page)
    ensures IsSortedMatching(store, q.spec, q.pageable.order, s)
    ensures page == Slice(s, q.pageable.page, q.pageable.size)
  {
    s :| IsSortedMatching(store, q.spec, q.pageable.order, s) && page == Slice(s, q.pageable.page, q.pageable.size);
  }

  /** Every entry of a listing page is a stored player that satisfies the query's specification. */
  lemma ListingMembers(store: map<int, Player>, q: Query, page: seq<Player>)
    requires q.pageable.page >= 0 && q.pageable.size >= 1
    requires IsListing(store, q, page)
    ensures forall i :: 0 <= i < |page| ==>
              page[i].id in store && store[page[i].id] == page[i] && Satisfies(q.spec, page[i])
  {
    var s := ListingSource(store, q, page);
    var skipped := q.pageable.page * q.pageable.size;
    forall i | 0 <= i < |page|
      ensures page[i].id in store && store[page[i].id] == page[i] && Satisfies(q.spec, page[i])
    {
      assert page[i] == s[skipped + i];
      SortedMatchingMember(store, q.spec, q.pageable.order, s, skipped + i);
    }
  }

  /**
   * A listing page holds what is left of the matching players after the earlier
   * pages, and at most one page size of them.
   */
  lemma ListingLength(store: map<int, Player>, q: Query, page: seq<Player>)
    requires q.pageable.page >= 0 && q.pageable.size >= 1
    requires IsListing(store, q, page)
    ensures var count, skipped := |MatchingIds(store, q.spec)|, q.pageable.page * q.pageable.size;
            |page| == if count <= skipped then 0 else if count - skipped < q.pageable.size then count - skipped else q.pageable.size
  {
    var s := ListingSource(store, q, page);
    DistinctIdsCount(s);
  }

  /**
   * Count and listing agree: for a query built from criteria `c` (as `ListQuery`
   * builds it), a listing page holds only stored players that match `c`, and no
   * more of them than the count of `c`.
   */
  lemma ListingAgreesWithCount(store: map<int, Player>, c: Criteria, q: Query, page: seq<Player>)
    requires q.spec == MakeSpecification(c)
    requires q.pageable.page >= 0 && q.pageable.size >= 1
    requires IsListing(store, q, page)
    ensures forall i :: 0 <= i < |page| ==> page[i].id in store && Matches(page[i], c)
    ensures |page| <= |MatchingIds(store, MakeSpecification(c))|
  {
    ListingMembers(store, q, page);
    ListingLength(store, q, page);
    forall i | 0 <= i < |page| ensures Matches(page[i], c) {
      MakeSpecificationMeaning(c, page[i]);
    }
  }

  /**
   * The setter sequence of `updatePlayer` on an accepted body: each supplied
   * field is written in turn, and a supplied experience also rewrites level and
   * progress.
   */
  method ApplyUpdate(stored: Player, b: PlayerBody) returns (p: Player)
    requires UpdateIsValid(b)
    ensures p == Updated(stored, b)
  {
    p := stored;
    if b.name.Some? { p := p.(name := b.name.value); }
    if b.title.Some? { p := p.(title := b.title.value); }
    if b.race.Some? { p := p.(race := b.race.value); }
    if b.profession.Some? { p := p.(profession := b.profession.value); }
    if b.birthday.Some? { p := p.(birthday := b.birthday.value); }
    if b.banned.Some? { p := p.(banned := b.banned.value); }
    assert p == stored.(name := Overlay(stored.name, b.name), title := Overlay(stored.title, b.title),
                        race := Overlay(stored.race, b.race), profession := Overlay(stored.profession, b.profession),
                        birthday := Overlay(stored.birthday, b.birthday), banned := Overlay(stored.banned, b.banned));
    if b.experience.Some? {
      var experience := b.experience.value;
      p := p.(experience := experience);
      var level := Level(experience);
      p := p.(level := level);
      p := p.(untilNextLevel := UntilNextLevel(experience, level));
    }
  }

  /** The store, with identifiers handed out in increasing order from `nextId`. */
  class PlayerStore {
    var players: map<int, Player>
    var nextId: int

    /** Every key is positive, below `nextId`, and the identifier of its player. */
    ghost predicate Valid()
      reads this
    {
      && nextId > 0
      && forall id :: id in players ==> 0 < id < nextId && players[id].id == id
    }

    /** Every stored player is well formed (level and progress agree with experience). */
    ghost predicate AllWellFormed()
      reads this
    {
      forall id :: id in players ==> WellFormed(players[id])
    }

    constructor ()
      ensures Valid() && AllWellFormed()
      ensures players == map[] && nextId == 1
    {
      players := map[];
      nextId := 1;
    }

    /** `getPlayer`: an invalid id is refused before the lookup; a missing one is not found. */
    method GetPlayer(id: Option<int>) returns (status: Status, player: Option<Player>)
      ensures status == BadRequest <==> !IsIdValid(id)
      ensures status == NotFound <==> IsIdValid(id) && id.value !in players
      ensures status == Ok <==> IsIdValid(id) && id.value in players
      ensures status == Ok ==> player == Some(players[id.value])
      ensures status != Ok ==> player == None
    {
      if !IsIdValid(id) {
        return BadRequest, None;
      }
      if id.value !in players {
        return NotFound, None;
      }
      return Ok, Some(players[id.value]);
    }

    /**
     * `createPlayer`: an absent body, a missing race or profession, or an invalid
     * name, title, birthday or experience is refused and nothing is stored;
     * otherwise the player is stored under a fresh identifier with `banned`
     * defaulted to false and level and progress computed from the experience.
     */
    method CreatePlayer(body: Option<PlayerBody>) returns (status: Status, player: Option<Player>)
      requires Valid()
      modifies this
      ensures Valid()
      ensures status == Ok <==> body.Some? && CreationIsValid(body.value)
      ensures status != Ok ==> status == BadRequest && player == None
      ensures status != Ok ==> players == old(players) && nextId == old(nextId)
      ensures status == Ok ==> old(nextId) !in old(players) && player == Some(Created(body.value, old(nextId)))
      ensures status == Ok ==> players == old(players)[old(nextId) := player.value] && nextId == old(nextId) + 1
      ensures old(AllWellFormed()) ==> AllWellFormed()
    {
      if body.None? {
        return BadRequest, None;
      }
      var b := body.value;
      var banned := b.banned;
      if banned.None? {
        banned := Some(false);
      }
      if !IsNameValid(b.name) || !IsTitleValid(b.title) || b.race.None? || b.profession.None?
         || !IsDateValid(b.birthday) || !IsExperienceValid(b.experience) {
        return BadRequest, None;
      }
      var experience := b.experience.value;
      var level := Level(experience);
      var p := Player(nextId, b.name.value, b.title.value, b.race.value, b.profession.value,
                      b.birthday.value, banned.value, experience, level, UntilNextLevel(experience, level));
      players := players[nextId := p];
      nextId := nextId + 1;
      return Ok, Some(p);
    }

    /**
     * `updatePlayer`: an invalid id or absent body is refused first; then an
     * unknown id is not found (even when the body is invalid); then one invalid
     * supplied field refuses the whole update. Otherwise every supplied field is
     * applied and level and progress are recomputed exactly when experience was
     * supplied; nothing else in the store changes.
     */
    method UpdatePlayer(id: Option<int>, body: Option<PlayerBody>) returns (status: Status, player: Option<Player>)
      requires Valid()
      modifies this
      ensures Valid() && nextId == old(nextId)
      ensures status == BadRequest <==>
              !IsIdValid(id) || body.None? || (id.value in old(players) && !UpdateIsValid(body.value))
      ensures status == NotFound <==> IsIdValid(id) && body.Some? && id.value !in old(players)
      ensures status != ServerError
      ensures status != Ok ==> players == old(players) && player == None
      ensures status == Ok ==> player == Some(Updated(old(players)[id.value], body.value))
      ensures status == Ok ==> players == old(players)[id.value := player.value]
      ensures old(AllWellFormed()) ==> AllWellFormed()
    {
      if !IsIdValid(id) || body.None? {
        return BadRequest, None;
      }
      if id.value !in players {
        return NotFound, None;
      }
      var b := body.value;
      if (b.name.Some? && !IsNameValid(b.name))
         || (b.title.Some? && !IsTitleValid(b.title))
         || (b.birthday.Some? && !IsDateValid(b.birthday))
         || (b.experience.Some? && !IsExperienceValid(b.experience)) {
        return BadRequest, None;
      }
      var p := ApplyUpdate(players[id.value], b);
      players := players[id.value := p];
      return Ok, Some(p);
    }

    /**
     * `deletePlayer`: an invalid id is refused, an unknown one is not found;
     * otherwise exactly that entry is removed.
     */
    method DeletePlayer(id: Option<int>) returns (status: Status)
      requires Valid()
      modifies this
      ensures Valid() && nextId == old(nextId)
      ensures status == BadRequest <==> !IsIdValid(id)
      ensures status == NotFound <==> IsIdValid(id) && id.value !in old(players)
      ensures status == Ok <==> IsIdValid(id) && id.value in old(players)
      ensures status != Ok ==> players == old(players)
      ensures status == Ok ==> players == old(players) - {id.value}
      ensures forall k :: k in old(players) && (status != Ok || k != id.value) ==>
                k in players && players[k] == old(players)[k]
      ensures old(AllWellFormed()) ==> AllWellFormed()
    {
      if !IsIdValid(id) {
        return BadRequest;
      }
      if id.value !in players {
        return NotFound;
      }
      players := players - {id.value};
      return Ok;
    }

    /**
     * `getPlayerCount`: the number of stored players that match the criteria,
     * with the same specification the listing uses and no paging.
     */
    function PlayerCount(c: Criteria): (n: nat)
      reads this
      ensures n <= |players|
      ensures c == NoCriteria ==> n == |players|
      ensures n == |MatchingIds(players, ListQuery(c, None, None, None).1.spec)|
    {
      var ids := MatchingIds(players, MakeSpecification(c));
      SubsetCount(ids, players.Keys);
      |ids|
    }
  }

  lemma SubsetCount(a: set<int>, b: set<int>)
    requires a <= b
    ensures |a| <= |b|
  {
    assert b == a + (b - a);
    assert a * (b - a) == {};
  }
}
