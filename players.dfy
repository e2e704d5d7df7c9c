/**
 * The player entity as the controller sees it: the stored record, the request
 * body of create and update (every field may be absent), and the two rules that
 * turn a body into a record.
 */
module Players {
  import opened Wrappers
  import opened Validation
  import opened Progression

  /** A race, identified by its position in the race enumeration (Race.java is not part of this model). */
  datatype Race = Race(ordinal: nat)

  /** A profession, identified by its position in the profession enumeration (Profession.java is not part of this model). */
  datatype Profession = Profession(ordinal: nat)

  /** A stored player. The birthday is a date in epoch milliseconds. */
  datatype Player = Player(
    id: int,
    name: string,
    title: string,
    race: Race,
    profession: Profession,
    birthday: int,
    banned: bool,
    experience: int,
    level: int,
    untilNextLevel: int)

  /** The JSON body of a create or update request; `None` is a field the caller left out. */
  datatype PlayerBody = PlayerBody(
    name: Option<string>,
    title: Option<string>,
    race: Option<Race>,
    profession: Option<Profession>,
    birthday: Option<int>,
    banned: Option<bool>,
    experience: Option<int>)

  /** A body in which every field was left out. */
  const EmptyBody := PlayerBody(None, None, None, None, None, None, None)

  /**
   * A record the controller would accept and store: positive id, every field valid,
   * and level and progress derived from the experience.
   */
  predicate WellFormed(p: Player)
  {
    && p.id > 0
    && IsNameValid(Some(p.name))
    && IsTitleValid(Some(p.title))
    && IsDateValid(Some(p.birthday))
    && IsExperienceValid(Some(p.experience))
    && p.level == Level(p.experience)
    && p.untilNextLevel == UntilNextLevel(p.experience, p.level)
  }

  /** The creation check: every required field present and valid (`banned` is optional). */
  predicate CreationIsValid(b: PlayerBody): (valid: bool)
    ensures valid ==> b.name.Some? && b.title.Some? && b.race.Some? && b.profession.Some?
                      && b.birthday.Some? && b.experience.Some?
  {
    && IsNameValid(b.name)
    && IsTitleValid(b.title)
    && b.race.Some?
    && b.profession.Some?
    && IsDateValid(b.birthday)
    && IsExperienceValid(b.experience)
  }

  /**
   * The record that creation stores for an accepted body under identifier `id`:
   * the body's fields, `banned` false unless the body says true, and the derived
   * level and progress.
   */
  function Created(b: PlayerBody, id: int): (p: Player)
    requires CreationIsValid(b)
    ensures id > 0 ==> WellFormed(p)
    ensures p.id == id && Some(p.name) == b.name && Some(p.title) == b.title
    ensures Some(p.race) == b.race && Some(p.profession) == b.profession
    ensures Some(p.birthday) == b.birthday && Some(p.experience) == b.experience
    ensures p.banned <==> b.banned == Some(true)
    ensures p.level == Level(b.experience.value) && p.untilNextLevel == LevelStart(p.level + 1) - p.experience
  {
    var e := b.experience.value;
    UntilNextLevelBounds(e);
    Player(id, b.name.value, b.title.value, b.race.value, b.profession.value, b.birthday.value,
           b.banned == Some(true), e, Level(e), UntilNextLevel(e, Level(e)))
  }

  /** The update check: every SUPPLIED name, title, birthday and experience is valid. */
  predicate UpdateIsValid(b: PlayerBody): (valid: bool)
    ensures b == EmptyBody ==> valid
    ensures CreationIsValid(b) ==> valid
  {
    && (b.name.Some? ==> IsNameValid(b.name))
    && (b.title.Some? ==> IsTitleValid(b.title))
    && (b.birthday.Some? ==> IsDateValid(b.birthday))
    && (b.experience.Some? ==> IsExperienceValid(b.experience))
  }

  /**
   * Neither check looks at `banned`, and an update never checks the race or the
   * profession it supplies.
   */
  lemma UncheckedFields(b: PlayerBody, banned: Option<bool>, race: Option<Race>, profession: Option<Profession>)
    ensures CreationIsValid(b) <==> CreationIsValid(b.(banned := banned))
    ensures UpdateIsValid(b) <==> UpdateIsValid(b.(banned := banned, race := race, profession := profession))
  {
  }

  /** The supplied value, if there is one, in place of `current`. */
  function Overlay<T>(current: T, supplied: Option<T>): (r: T)
    ensures supplied.Some? ==> r == supplied.value
    ensures supplied.None? ==> r == current
  {
    if supplied.Some? then supplied.value else current
  }

  /**
   * The record an accepted update produces: every supplied field replaces the
   * stored one, the rest stay; level and progress are derived again exactly when
   * experience was supplied.
   */
  function Updated(p: Player, b: PlayerBody): (r: Player)
    requires UpdateIsValid(b)
    ensures r.id == p.id
    ensures b == EmptyBody ==> r == p
    ensures b.experience.None? ==> r.experience == p.experience && r.level == p.level && r.untilNextLevel == p.untilNextLevel
    ensures b.experience.Some? ==> r.level == Level(b.experience.value) && r.untilNextLevel == LevelStart(r.level + 1) - r.experience
    ensures b.experience.Some? ==> r.experience == b.experience.value
    ensures WellFormed(p) ==> WellFormed(r)
    ensures b.name.Some? ==> r.name == b.name.value
    ensures b.name.None? ==> r.name == p.name
    ensures b.title.Some? ==> r.title == b.title.value
    ensures b.title.None? ==> r.title == p.title
    ensures b.race.Some? ==> r.race == b.race.value
    ensures b.race.None? ==> r.race == p.race
    ensures b.profession.Some? ==> r.profession == b.profession.value
    ensures b.profession.None? ==> r.profession == p.profession
    ensures b.birthday.Some? ==> r.birthday == b.birthday.value
    ensures b.birthday.None? ==> r.birthday == p.birthday
    ensures b.banned.Some? ==> r.banned == b.banned.value
    ensures b.banned.None? ==> r.banned == p.banned
  {
    var kept := p.(name := Overlay(p.name, b.name), title := Overlay(p.title, b.title),
                   race := Overlay(p.race, b.race), profession := Overlay(p.profession, b.profession),
                   birthday := Overlay(p.birthday, b.birthday), banned := Overlay(p.banned, b.banned));
    if b.experience.None? then kept
    else
      var e := b.experience.value;
      UntilNextLevelBounds(e);
      kept.(experience := e, level := Level(e), untilNextLevel := UntilNextLevel(e, Level(e)))
  }

  /** Applying the same accepted update twice has the effect of applying it once. */
  lemma UpdateIdempotent(p: Player, b: PlayerBody)
    requires UpdateIsValid(b)
    ensures Updated(Updated(p, b), b) == Updated(p, b)
  {
  }
}
