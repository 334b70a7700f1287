/** Statements the shared SQL adapter builds piece by piece, and the parameters bound to their placeholders. */
module SqlBuilder {
  import opened Common

  datatype Dialect = Postgres | Sqlite

  datatype SqlParam = Null | Text(text: string) | Boolean(flag: bool) | Integer(value: int) | DateTime(rfc3339: string)

  // ---------------------------------------------------------------------------------------------
  // Placeholders and the two ways of binding them
  // ---------------------------------------------------------------------------------------------

  /** The columns of the two tables that statements here name, spelled as the columns are. */
  datatype Column =
    | Id | CreatedAt | UpdatedAt
    | Email | Name | Image | EmailVerified | Username | DisplayUsername | Role
    | Banned | BanReason | BanExpires | TwoFactorEnabled
    | AccessToken | RefreshToken | IdToken | AccessTokenExpiresAt | RefreshTokenExpiresAt | Scope | Password

  /** What stands to the left of a placeholder. */
  datatype Use =
    | Assigned(column: Column)
    | Equal(column: Column)
    | NotEqual(column: Column)
    | LowerLike(column: Column, escape: string)
    | Limit
    | Offset
    | Listed

  /** A placeholder in the text of a statement, read left to right; `index` is the number it is written with. */
  datatype Slot = Slot(use: Use, index: nat)

  /** PostgreSQL goes by the number a placeholder is written with, SQLite by how many placeholders stand before it. */
  function BoundValue(dialect: Dialect, slots: seq<Slot>, params: seq<SqlParam>, k: nat): Option<SqlParam>
    requires k < |slots|
  {
    match dialect
    case Postgres =>
      if 1 <= slots[k].index <= |params| then Some(params[slots[k].index - 1]) else None
    case Sqlite => if k < |params| then Some(params[k]) else None
  }

  /** Placeholders are numbered 1, 2, 3, ... from the left, one for each parameter. */
  ghost predicate Aligned(slots: seq<Slot>, params: seq<SqlParam>) {
    |slots| == |params| && forall k :: 0 <= k < |slots| ==> slots[k].index == k + 1
  }

  /** Whatever parameters of that number are bound, both dialects give every placeholder the same one. */
  ghost predicate DialectsAgree(slots: seq<Slot>, count: nat) {
    forall params: seq<SqlParam>, k :: |params| == count && 0 <= k < |slots| ==>
      BoundValue(Postgres, slots, params, k) == BoundValue(Sqlite, slots, params, k) != None
  }

  function Distinguishable(count: nat): (params: seq<SqlParam>)
    ensures |params| == count
  {
    seq(count, i => Integer(i))
  }

  /** Numbering from the left is not only enough for the dialects to agree, it is what it takes. */
  lemma AgreeIffNumbered(slots: seq<Slot>, count: nat)
    requires |slots| == count
    ensures DialectsAgree(slots, count) <==> forall k :: 0 <= k < |slots| ==> slots[k].index == k + 1
  {
    if DialectsAgree(slots, count) {
      var params := Distinguishable(count);
      forall k | 0 <= k < |slots|
        ensures slots[k].index == k + 1
      {
        assert BoundValue(Postgres, slots, params, k) == BoundValue(Sqlite, slots, params, k) != None;
      }
    }
  }

  /** What each placeholder's use is given, left to right. */
  function Given(slots: seq<Slot>, params: seq<SqlParam>): seq<(Use, SqlParam)>
    requires |slots| == |params|
  {
    seq(|slots|, k requires 0 <= k < |slots| => (slots[k].use, params[k]))
  }

  /** In an aligned statement both dialects give each use what `Given` says. */
  lemma AlignedMeansGiven(slots: seq<Slot>, params: seq<SqlParam>, dialect: Dialect, k: nat)
    requires Aligned(slots, params) && k < |slots|
    ensures BoundValue(dialect, slots, params, k) == Some(Given(slots, params)[k].1)
    ensures Given(slots, params)[k].0 == slots[k].use
  {
  }

  /** The range of placeholders an INSERT lists. */
  function Placeholders(start: nat, count: nat): (slots: seq<Slot>)
    ensures |slots| == count
  {
    seq(count, i requires 0 <= i < count => Slot(Listed, start + i))
  }

  /** Listed from 1 on, they are aligned with any parameters of their number; listed from elsewhere, with none. */
  lemma PlaceholdersAligned(start: nat, params: seq<SqlParam>)
    ensures Aligned(Placeholders(start, |params|), params) <==> start == 1 || params == []
  {
    if params != [] && start != 1 {
      assert Placeholders(start, |params|)[0].index == start;
    }
  }

  // ---------------------------------------------------------------------------------------------
  // UPDATE statements
  // ---------------------------------------------------------------------------------------------

  /** The assignments of an UPDATE under construction. */
  class UpdateBuilder {
    var sets: seq<Slot>
    var params: seq<SqlParam>

    ghost predicate Valid()
      reads this
    {
      Aligned(sets, params)
    }

    constructor (now: SqlParam)
      ensures Valid() && Given(sets, params) == [(Assigned(UpdatedAt), now)]
    {
      sets := [Slot(Assigned(UpdatedAt), 1)];
      params := [now];
    }

    /** The value is pushed first, so that its placeholder has the number of parameters so far. */
    method PushUpdate(column: Column, value: SqlParam)
      requires Valid()
      modifies this
      ensures Valid() && Given(sets, params) == old(Given(sets, params)) + [(Assigned(column), value)]
    {
      params := params + [value];
      sets := sets + [Slot(Assigned(column), |params|)];
    }

    method PushText(column: Column, value: Option<string>)
      requires Valid()
      modifies this
      ensures Valid() && Given(sets, params) == old(Given(sets, params)) + IfText(column, value)
    {
      if value.Some? {
        PushUpdate(column, Text(value.value));
      } else {
        assert Given(sets, params) + [] == Given(sets, params);
      }
    }

    method PushDateTime(column: Column, value: Option<string>)
      requires Valid()
      modifies this
      ensures Valid() && Given(sets, params) == old(Given(sets, params)) + IfDateTime(column, value)
    {
      if value.Some? {
        PushUpdate(column, DateTime(value.value));
      } else {
        assert Given(sets, params) + [] == Given(sets, params);
      }
    }

    method PushBoolean(column: Column, value: Option<bool>)
      requires Valid()
      modifies this
      ensures Valid() && Given(sets, params) == old(Given(sets, params)) + IfBoolean(column, value)
    {
      if value.Some? {
        PushUpdate(column, Boolean(value.value));
      } else {
        assert Given(sets, params) + [] == Given(sets, params);
      }
    }

    /** The whole statement: the assignments, and the id its row is found by. */
    method Finish(id: string) returns (slots: seq<Slot>, bound: seq<SqlParam>)
      requires Valid()
      modifies this
      ensures Aligned(slots, bound)
      ensures Given(slots, bound) == old(Given(sets, params)) + [(Equal(Id), Text(id))]
    {
      params := params + [Text(id)];
      slots, bound := sets + [Slot(Equal(Id), |params|)], params;
    }
  }

  function IfText(column: Column, value: Option<string>): seq<(Use, SqlParam)> {
    if value.Some? then [(Assigned(column), Text(value.value))] else []
  }

  function IfDateTime(column: Column, value: Option<string>): seq<(Use, SqlParam)> {
    if value.Some? then [(Assigned(column), DateTime(value.value))] else []
  }

  function IfBoolean(column: Column, value: Option<bool>): seq<(Use, SqlParam)> {
    if value.Some? then [(Assigned(column), Boolean(value.value))] else []
  }

  /** The fields an update may set; `email` is normalized already. */
  datatype UserUpdate = UserUpdate(
    email: Option<string>,
    name: Option<string>,
    image: Option<string>,
    emailVerified: Option<bool>,
    username: Option<string>,
    displayUsername: Option<string>,
    role: Option<string>,
    banned: Option<bool>,
    banReason: Option<string>,
    banExpires: Option<string>,
    twoFactorEnabled: Option<bool>)

  /** Lifting a ban clears its reason and its end. */
  function BanAssignments(banned: Option<bool>): seq<(Use, SqlParam)> {
    if banned == Some(false) then
      [(Assigned(Banned), Boolean(false)), (Assigned(BanReason), Null), (Assigned(BanExpires), Null)]
    else IfBoolean(Banned, banned)
  }

  /** What an update is to assign, and to which row. */
  function UserAssignments(id: string, update: UserUpdate, now: SqlParam): seq<(Use, SqlParam)> {
    [(Assigned(UpdatedAt), now)]
    + IfText(Email, update.email) + IfText(Name, update.name) + IfText(Image, update.image)
    + IfBoolean(EmailVerified, update.emailVerified) + IfText(Username, update.username)
    + IfText(DisplayUsername, update.displayUsername) + IfText(Role, update.role)
    + BanAssignments(update.banned)
    + IfText(BanReason, update.banReason) + IfDateTime(BanExpires, update.banExpires)
    + IfBoolean(TwoFactorEnabled, update.twoFactorEnabled)
    + [(Equal(Id), Text(id))]
  }

  /** Each field that is given sets its own column to its own value, in either dialect, and the row is the id's. */
  method UpdateUser(id: string, update: UserUpdate, now: SqlParam) returns (slots: seq<Slot>, params: seq<SqlParam>)
    ensures Aligned(slots, params) && Given(slots, params) == UserAssignments(id, update, now)
  {
    hide IfText, IfDateTime, IfBoolean, BanAssignments, Aligned, Given;
    var builder := new UpdateBuilder(now);
    builder.PushText(Email, update.email);
    builder.PushText(Name, update.name);
    builder.PushText(Image, update.image);
    builder.PushBoolean(EmailVerified, update.emailVerified);
    builder.PushText(Username, update.username);
    builder.PushText(DisplayUsername, update.displayUsername);
    builder.PushText(Role, update.role);
    PushBan(builder, update.banned);
    builder.PushText(BanReason, update.banReason);
    builder.PushDateTime(BanExpires, update.banExpires);
    builder.PushBoolean(TwoFactorEnabled, update.twoFactorEnabled);
    slots, params := builder.Finish(id);
  }

  method PushBan(builder: UpdateBuilder, banned: Option<bool>)
    requires builder.Valid()
    modifies builder
    ensures builder.Valid()
    ensures Given(builder.sets, builder.params) ==
            old(Given(builder.sets, builder.params)) + BanAssignments(banned)
  {
    hide Given;
    builder.PushBoolean(Banned, banned);
    if banned == Some(false) {
      builder.PushUpdate(BanReason, Null);
      builder.PushUpdate(BanExpires, Null);
    }
  }

  /** How often a statement assigns a column. */
  function Times(given: seq<(Use, SqlParam)>, column: Column): nat {
    if given == [] then 0 else (if given[0].0 == Assigned(column) then 1 else 0) + Times(given[1..], column)
  }

  lemma {:induction false} TimesConcat(a: seq<(Use, SqlParam)>, b: seq<(Use, SqlParam)>, column: Column)
    ensures Times(a + b, column) == Times(a, column) + Times(b, column)
  {
    if a == [] {
      assert a + b == b;
    } else {
      TimesConcat(a[1..], b, column);
      assert (a + b)[1..] == a[1..] + b;
    }
  }

  /** No column is assigned twice, which PostgreSQL refuses. */
  ghost predicate DistinctColumns(given: seq<(Use, SqlParam)>) {
    forall column :: Times(given, column) <= 1
  }

  /** Lifting a ban and giving it a reason or an end in the same update. */
  predicate ContradictsItself(update: UserUpdate) {
    update.banned == Some(false) && (update.banReason.Some? || update.banExpires.Some?)
  }

  function One(b: bool): nat {
    if b then 1 else 0
  }

  lemma TimesOfOne(use: Use, value: SqlParam, column: Column)
    ensures Times([(use, value)], column) == One(use == Assigned(column))
  {
    assert |[(use, value)][1..]| == 0;
  }

  lemma TimesOfIf(column: Column, text: Option<string>, flag: Option<bool>, other: Column)
    ensures Times(IfText(column, text), other) == One(text.Some? && column == other)
    ensures Times(IfDateTime(column, text), other) == One(text.Some? && column == other)
    ensures Times(IfBoolean(column, flag), other) == One(flag.Some? && column == other)
  {
  }

  lemma TimesOfBan(banned: Option<bool>, column: Column)
    ensures Times(BanAssignments(banned), column) ==
            One(banned.Some? && column == Banned)
            + One(banned == Some(false) && (column == BanReason || column == BanExpires))
  {
    if banned == Some(false) {
      TimesOfOne(Assigned(Banned), Boolean(false), column);
      TimesOfOne(Assigned(BanReason), Null, column);
      TimesOfOne(Assigned(BanExpires), Null, column);
      var lifted: seq<(Use, SqlParam)> := [(Assigned(Banned), Boolean(false))];
      TimesConcat(lifted, [(Assigned(BanReason), Null)], column);
      TimesConcat(lifted + [(Assigned(BanReason), Null)], [(Assigned(BanExpires), Null)], column);
      hide Times;
      assert BanAssignments(banned) == lifted + [(Assigned(BanReason), Null)] + [(Assigned(BanExpires), Null)];
    }
  }

  /** How often an update assigns each column. */
  lemma UserTimes(id: string, update: UserUpdate, now: SqlParam, column: Column)
    ensures Times(UserAssignments(id, update, now), column) ==
            One(column == UpdatedAt)
            + One(update.email.Some? && column == Email)
            + One(update.name.Some? && column == Name)
            + One(update.image.Some? && column == Image)
            + One(update.emailVerified.Some? && column == EmailVerified)
            + One(update.username.Some? && column == Username)
            + One(update.displayUsername.Some? && column == DisplayUsername)
            + One(update.role.Some? && column == Role)
            + One(update.banned.Some? && column == Banned)
            + One(update.banned == Some(false) && (column == BanReason || column == BanExpires))
            + One(update.banReason.Some? && column == BanReason)
            + One(update.banExpires.Some? && column == BanExpires)
            + One(update.twoFactorEnabled.Some? && column == TwoFactorEnabled)
  {
    var start: seq<(Use, SqlParam)> := [(Assigned(UpdatedAt), now)];
    var end: seq<(Use, SqlParam)> := [(Equal(Id), Text(id))];
    TimesOfOne(Assigned(UpdatedAt), now, column);
    TimesOfOne(Equal(Id), Text(id), column);
    TimesOfBan(update.banned, column);
    TimesOfIf(Email, update.email, None, column);
    TimesOfIf(Name, update.name, None, column);
    TimesOfIf(Image, update.image, None, column);
    TimesOfIf(EmailVerified, None, update.emailVerified, column);
    TimesOfIf(Username, update.username, None, column);
    TimesOfIf(DisplayUsername, update.displayUsername, None, column);
    TimesOfIf(Role, update.role, None, column);
    TimesOfIf(BanReason, update.banReason, None, column);
    TimesOfIf(BanExpires, update.banExpires, None, column);
    TimesOfIf(TwoFactorEnabled, None, update.twoFactorEnabled, column);
    hide IfText, IfDateTime, IfBoolean, BanAssignments, Times;
    var a1 := start + IfText(Email, update.email);
    TimesConcat(start, IfText(Email, update.email), column);
    var a2 := a1 + IfText(Name, update.name);
    TimesConcat(a1, IfText(Name, update.name), column);
    var a3 := a2 + IfText(Image, update.image);
    TimesConcat(a2, IfText(Image, update.image), column);
    var a4 := a3 + IfBoolean(EmailVerified, update.emailVerified);
    TimesConcat(a3, IfBoolean(EmailVerified, update.emailVerified), column);
    var a5 := a4 + IfText(Username, update.username);
    TimesConcat(a4, IfText(Username, update.username), column);
    var a6 := a5 + IfText(DisplayUsername, update.displayUsername);
    TimesConcat(a5, IfText(DisplayUsername, update.displayUsername), column);
    var a7 := a6 + IfText(Role, update.role);
    TimesConcat(a6, IfText(Role, update.role), column);
    var a8 := a7 + BanAssignments(update.banned);
    TimesConcat(a7, BanAssignments(update.banned), column);
    var a9 := a8 + IfText(BanReason, update.banReason);
    TimesConcat(a8, IfText(BanReason, update.banReason), column);
    var a10 := a9 + IfDateTime(BanExpires, update.banExpires);
    TimesConcat(a9, IfDateTime(BanExpires, update.banExpires), column);
    var a11 := a10 + IfBoolean(TwoFactorEnabled, update.twoFactorEnabled);
    TimesConcat(a10, IfBoolean(TwoFactorEnabled, update.twoFactorEnabled), column);
    TimesConcat(a11, end, column);
  }

  /** A user update assigns no column twice unless it lifts a ban and gives it a reason or an end at once. */
  lemma UserColumnsDistinctIffConsistent(id: string, update: UserUpdate, now: SqlParam)
    ensures DistinctColumns(UserAssignments(id, update, now)) <==> !ContradictsItself(update)
  {
    forall column
      ensures Times(UserAssignments(id, update, now), column) <= 1 <==>
              !(ContradictsItself(update)
                && ((column == BanReason && update.banReason.Some?)
                    || (column == BanExpires && update.banExpires.Some?)))
    {
      UserTimes(id, update, now, column);
    }
    hide UserAssignments, Times;
    if ContradictsItself(update) {
      var column := if update.banReason.Some? then BanReason else BanExpires;
      assert Times(UserAssignments(id, update, now), column) > 1;
    }
  }

  /** For instance an update that lifts a ban and says why: its reason is cleared and set. */
  lemma LiftedBanWithReasonIsTwice(id: string, now: SqlParam, reason: string)
    ensures var update := UserUpdate(None, None, None, None, None, None, None, Some(false), Some(reason), None, None);
            Times(UserAssignments(id, update, now), BanReason) == 2
  {
    var update := UserUpdate(None, None, None, None, None, None, None, Some(false), Some(reason), None, None);
    UserTimes(id, update, now, BanReason);
    hide UserAssignments, Times;
  }

  datatype AccountUpdate = AccountUpdate(
    accessToken: Option<string>,
    refreshToken: Option<string>,
    idToken: Option<string>,
    accessTokenExpiresAt: Option<string>,
    refreshTokenExpiresAt: Option<string>,
    scope: Option<string>,
    password: Option<string>)

  function AccountAssignments(id: string, update: AccountUpdate, now: SqlParam): seq<(Use, SqlParam)> {
    [(Assigned(UpdatedAt), now)]
    + IfText(AccessToken, update.accessToken) + IfText(RefreshToken, update.refreshToken)
    + IfText(IdToken, update.idToken)
    + IfDateTime(AccessTokenExpiresAt, update.accessTokenExpiresAt)
    + IfDateTime(RefreshTokenExpiresAt, update.refreshTokenExpiresAt)
    + IfText(Scope, update.scope) + IfText(Password, update.password)
    + [(Equal(Id), Text(id))]
  }

  method UpdateAccount(id: string, update: AccountUpdate, now: SqlParam)
    returns (slots: seq<Slot>, params: seq<SqlParam>)
    ensures Aligned(slots, params) && Given(slots, params) == AccountAssignments(id, update, now)
  {
    hide IfText, IfDateTime, Aligned, Given;
    var builder := new UpdateBuilder(now);
    builder.PushText(AccessToken, update.accessToken);
    builder.PushText(RefreshToken, update.refreshToken);
    builder.PushText(IdToken, update.idToken);
    builder.PushDateTime(AccessTokenExpiresAt, update.accessTokenExpiresAt);
    builder.PushDateTime(RefreshTokenExpiresAt, update.refreshTokenExpiresAt);
    builder.PushText(Scope, update.scope);
    builder.PushText(Password, update.password);
    slots, params := builder.Finish(id);
  }

  // ---------------------------------------------------------------------------------------------
  // What an update leaves in its row
  // ---------------------------------------------------------------------------------------------

  /** The value a column has afterwards, if it is assigned at all: the last one wins. */
  function LastAssigned(given: seq<(Use, SqlParam)>, column: Column): Option<SqlParam> {
    if given == [] then None
    else
      var last := given[|given| - 1];
      if last.0 == Assigned(column) then Some(last.1) else LastAssigned(given[..|given| - 1], column)
  }

  function Later(a: Option<SqlParam>, b: Option<SqlParam>): Option<SqlParam> {
    if b.Some? then b else a
  }

  function TextOrNothing(value: Option<string>): Option<SqlParam> {
    if value.Some? then Some(Text(value.value)) else None
  }

  function DateOrNothing(value: Option<string>): Option<SqlParam> {
    if value.Some? then Some(DateTime(value.value)) else None
  }

  function FlagOrNothing(value: Option<bool>): Option<SqlParam> {
    if value.Some? then Some(Boolean(value.value)) else None
  }

  /** What the caller of a user update asks of each column. */
  function AskedOfUser(update: UserUpdate, now: SqlParam, column: Column): Option<SqlParam> {
    var cleared := if update.banned == Some(false) then Some(Null) else None;
    match column
    case UpdatedAt => Some(now)
    case Email => TextOrNothing(update.email)
    case Name => TextOrNothing(update.name)
    case Image => TextOrNothing(update.image)
    case EmailVerified => FlagOrNothing(update.emailVerified)
    case Username => TextOrNothing(update.username)
    case DisplayUsername => TextOrNothing(update.displayUsername)
    case Role => TextOrNothing(update.role)
    case Banned => FlagOrNothing(update.banned)
    case BanReason => Later(cleared, TextOrNothing(update.banReason))
    case BanExpires => Later(cleared, DateOrNothing(update.banExpires))
    case TwoFactorEnabled => FlagOrNothing(update.twoFactorEnabled)
    case _ => None
  }

  function AskedOfAccount(update: AccountUpdate, now: SqlParam, column: Column): Option<SqlParam> {
    match column
    case UpdatedAt => Some(now)
    case AccessToken => TextOrNothing(update.accessToken)
    case RefreshToken => TextOrNothing(update.refreshToken)
    case IdToken => TextOrNothing(update.idToken)
    case AccessTokenExpiresAt => DateOrNothing(update.accessTokenExpiresAt)
    case RefreshTokenExpiresAt => DateOrNothing(update.refreshTokenExpiresAt)
    case Scope => TextOrNothing(update.scope)
    case Password => TextOrNothing(update.password)
    case _ => None
  }

  ghost predicate AllAssigned(given: seq<(Use, SqlParam)>) {
    forall k :: 0 <= k < |given| ==> given[k].0.Assigned?
  }

  /** Assignments, and then one condition: the id. */
  ghost predicate FindsRow(given: seq<(Use, SqlParam)>, id: string) {
    && given != [] && given[|given| - 1] == (Equal(Id), Text(id))
    && AllAssigned(given[..|given| - 1])
  }

  lemma LastOfStart(now: SqlParam, column: Column)
    ensures LastAssigned([(Assigned(UpdatedAt), now)], column) == if column == UpdatedAt then Some(now) else None
    ensures AllAssigned([(Assigned(UpdatedAt), now)])
  {
    assert [(Assigned(UpdatedAt), now)][..0] == [];
  }

  lemma AfterAssignment(a: seq<(Use, SqlParam)>, target: Column, value: SqlParam, column: Column)
    ensures LastAssigned(a + [(Assigned(target), value)], column) ==
            if column == target then Some(value) else LastAssigned(a, column)
    ensures AllAssigned(a) ==> AllAssigned(a + [(Assigned(target), value)])
  {
    assert (a + [(Assigned(target), value)])[..|a|] == a;
  }

  lemma AfterText(a: seq<(Use, SqlParam)>, target: Column, value: Option<string>, column: Column)
    ensures LastAssigned(a + IfText(target, value), column) ==
            if column == target then Later(LastAssigned(a, column), TextOrNothing(value)) else LastAssigned(a, column)
    ensures AllAssigned(a) ==> AllAssigned(a + IfText(target, value))
  {
    if value.Some? {
      AfterAssignment(a, target, Text(value.value), column);
    } else {
      assert a + [] == a;
    }
  }

  lemma AfterDate(a: seq<(Use, SqlParam)>, target: Column, value: Option<string>, column: Column)
    ensures LastAssigned(a + IfDateTime(target, value), column) ==
            if column == target then Later(LastAssigned(a, column), DateOrNothing(value)) else LastAssigned(a, column)
    ensures AllAssigned(a) ==> AllAssigned(a + IfDateTime(target, value))
  {
    if value.Some? {
      AfterAssignment(a, target, DateTime(value.value), column);
    } else {
      assert a + [] == a;
    }
  }

  lemma AfterFlag(a: seq<(Use, SqlParam)>, target: Column, value: Option<bool>, column: Column)
    ensures LastAssigned(a + IfBoolean(target, value), column) ==
            if column == target then Later(LastAssigned(a, column), FlagOrNothing(value)) else LastAssigned(a, column)
    ensures AllAssigned(a) ==> AllAssigned(a + IfBoolean(target, value))
  {
    if value.Some? {
      AfterAssignment(a, target, Boolean(value.value), column);
    } else {
      assert a + [] == a;
    }
  }

  lemma AfterBan(a: seq<(Use, SqlParam)>, banned: Option<bool>, column: Column)
    ensures LastAssigned(a + BanAssignments(banned), column) ==
            if column == Banned then Later(LastAssigned(a, column), FlagOrNothing(banned))
            else if banned == Some(false) && (column == BanReason || column == BanExpires) then Some(Null)
            else LastAssigned(a, column)
    ensures AllAssigned(a) ==> AllAssigned(a + BanAssignments(banned))
  {
    AfterFlag(a, Banned, banned, column);
    if banned == Some(false) {
      var a1 := a + [(Assigned(Banned), Boolean(false))];
      var a2 := a1 + [(Assigned(BanReason), Null)];
      AfterAssignment(a, Banned, Boolean(false), column);
      AfterAssignment(a1, BanReason, Null, column);
      AfterAssignment(a2, BanExpires, Null, column);
      hide LastAssigned, AllAssigned;
      assert a + BanAssignments(banned) == a2 + [(Assigned(BanExpires), Null)];
    }
  }

  lemma AfterRow(a: seq<(Use, SqlParam)>, id: string, column: Column)
    requires AllAssigned(a)
    ensures LastAssigned(a + [(Equal(Id), Text(id))], column) == LastAssigned(a, column)
    ensures FindsRow(a + [(Equal(Id), Text(id))], id)
  {
    assert (a + [(Equal(Id), Text(id))])[..|a|] == a;
  }

  /** A user update leaves in each column of the id's row what the caller asked for it, and touches no other column. */
  lemma UserRowIsAsAsked(id: string, update: UserUpdate, now: SqlParam, column: Column)
    ensures LastAssigned(UserAssignments(id, update, now), column) == AskedOfUser(update, now, column)
    ensures FindsRow(UserAssignments(id, update, now), id)
  {
    var a0: seq<(Use, SqlParam)> := [(Assigned(UpdatedAt), now)];
    LastOfStart(now, column);
    AfterText(a0, Email, update.email, column);
    var a1 := a0 + IfText(Email, update.email);
    AfterText(a1, Name, update.name, column);
    var a2 := a1 + IfText(Name, update.name);
    AfterText(a2, Image, update.image, column);
    var a3 := a2 + IfText(Image, update.image);
    AfterFlag(a3, EmailVerified, update.emailVerified, column);
    var a4 := a3 + IfBoolean(EmailVerified, update.emailVerified);
    AfterText(a4, Username, update.username, column);
    var a5 := a4 + IfText(Username, update.username);
    AfterText(a5, DisplayUsername, update.displayUsername, column);
    var a6 := a5 + IfText(DisplayUsername, update.displayUsername);
    AfterText(a6, Role, update.role, column);
    var a7 := a6 + IfText(Role, update.role);
    AfterBan(a7, update.banned, column);
    var a8 := a7 + BanAssignments(update.banned);
    AfterText(a8, BanReason, update.banReason, column);
    var a9 := a8 + IfText(BanReason, update.banReason);
    AfterDate(a9, BanExpires, update.banExpires, column);
    var a10 := a9 + IfDateTime(BanExpires, update.banExpires);
    AfterFlag(a10, TwoFactorEnabled, update.twoFactorEnabled, column);
    var a11 := a10 + IfBoolean(TwoFactorEnabled, update.twoFactorEnabled);
    AfterRow(a11, id, column);
    hide IfText, IfDateTime, IfBoolean, BanAssignments, LastAssigned, FindsRow, AllAssigned;
  }

  /** Likewise for an account. */
  lemma AccountRowIsAsAsked(id: string, update: AccountUpdate, now: SqlParam, column: Column)
    ensures LastAssigned(AccountAssignments(id, update, now), column) == AskedOfAccount(update, now, column)
    ensures FindsRow(AccountAssignments(id, update, now), id)
  {
    var a0: seq<(Use, SqlParam)> := [(Assigned(UpdatedAt), now)];
    LastOfStart(now, column);
    AfterText(a0, AccessToken, update.accessToken, column);
    var a1 := a0 + IfText(AccessToken, update.accessToken);
    AfterText(a1, RefreshToken, update.refreshToken, column);
    var a2 := a1 + IfText(RefreshToken, update.refreshToken);
    AfterText(a2, IdToken, update.idToken, column);
    var a3 := a2 + IfText(IdToken, update.idToken);
    AfterDate(a3, AccessTokenExpiresAt, update.accessTokenExpiresAt, column);
    var a4 := a3 + IfDateTime(AccessTokenExpiresAt, update.accessTokenExpiresAt);
    AfterDate(a4, RefreshTokenExpiresAt, update.refreshTokenExpiresAt, column);
    var a5 := a4 + IfDateTime(RefreshTokenExpiresAt, update.refreshTokenExpiresAt);
    AfterText(a5, Scope, update.scope, column);
    var a6 := a5 + IfText(Scope, update.scope);
    AfterText(a6, Password, update.password, column);
    var a7 := a6 + IfText(Password, update.password);
    AfterRow(a7, id, column);
    hide IfText, IfDateTime, IfBoolean, BanAssignments, LastAssigned, FindsRow, AllAssigned;
  }

  // ---------------------------------------------------------------------------------------------
  // Listing users
  // ---------------------------------------------------------------------------------------------

  datatype ListParams = ListParams(
    limit: Option<nat>,
    offset: Option<nat>,
    searchValue: Option<string>,
    searchField: Option<string>,
    searchOperator: Option<string>,
    filterValue: Option<string>,
    filterField: Option<string>,
    filterOperator: Option<string>)

  /** A `usize` as an `i64`. */
  function AsInt64(x: nat): int {
    var low := x % TWO_POW_64;
    if low < TWO_POW_64 / 2 then low else low - TWO_POW_64
  }

  function OrElse<T>(x: Option<T>, default: T): T {
    if x.Some? then x.value else default
  }

  function Replace(s: string, c: char, with: string): string {
    if s == "" then "" else (if s[0] == c then with else [s[0]]) + Replace(s[1..], c, with)
  }

  function EscapeLike(s: string): string {
    Replace(Replace(Replace(s, '\\', "\\\\"), '%', "\\%"), '_', "\\_")
  }

  /** The SQL literal behind ESCAPE, as the format string writes it: two backslashes between quotes. */
  const ESCAPE_LITERAL: string := "'\\\\'"

  /** What a literal without inner quotes stands for under standard SQL strings. */
  function LiteralValue(literal: string): string
    requires |literal| >= 2
  {
    literal[1..|literal| - 1]
  }

  /** LOWER(column) LIKE LOWER(placeholder) ESCAPE literal. */
  function LowerLikeExpression(column: Column): Use {
    LowerLike(column, LiteralValue(ESCAPE_LITERAL))
  }

  function SearchPattern(operator: string, value: string): string {
    if operator == "starts_with" then EscapeLike(value) + "%"
    else if operator == "ends_with" then "%" + EscapeLike(value)
    else "%" + EscapeLike(value) + "%"
  }

  function SearchCondition(p: ListParams): seq<(Use, SqlParam)> {
    if p.searchValue.None? then []
    else
      var column := if OrElse(p.searchField, "email") == "name" then Name else Email;
      [(LowerLikeExpression(column), Text(SearchPattern(OrElse(p.searchOperator, "contains"), p.searchValue.value)))]
  }

  function FilterColumn(field: string): Column {
    if field == "name" then Name else if field == "role" then Role else Email
  }

  function FilterCondition(p: ListParams): seq<(Use, SqlParam)> {
    if p.filterValue.None? then []
    else
      var column, value := FilterColumn(OrElse(p.filterField, "email")), p.filterValue.value;
      var operator := OrElse(p.filterOperator, "eq");
      if operator == "contains" then [(LowerLikeExpression(column), Text("%" + EscapeLike(value) + "%"))]
      else if operator == "ne" then [(NotEqual(column), Text(value))]
      else [(Equal(column), Text(value))]
  }

  function Page(p: ListParams): seq<(Use, SqlParam)> {
    [(Limit, Integer(AsInt64(OrElse(p.limit, 100)))), (Offset, Integer(AsInt64(OrElse(p.offset, 0))))]
  }

  lemma AlignedOneMore(slots: seq<Slot>, params: seq<SqlParam>, use: Use, value: SqlParam)
    requires Aligned(slots, params)
    ensures Aligned(slots + [Slot(use, |params| + 1)], params + [value])
    ensures Given(slots + [Slot(use, |params| + 1)], params + [value]) == Given(slots, params) + [(use, value)]
  {
  }

  /** The conditions both queries share, with what they bind. */
  method WhereClause(p: ListParams) returns (conditions: seq<Slot>, bindValues: seq<SqlParam>)
    ensures Aligned(conditions, bindValues)
    ensures Given(conditions, bindValues) == SearchCondition(p) + FilterCondition(p)
  {
    conditions, bindValues := [], [];
    if p.searchValue.Some? {
      var column := if OrElse(p.searchField, "email") == "name" then Name else Email;
      var index := |bindValues| + 1;
      conditions := conditions + [Slot(LowerLikeExpression(column), index)];
      bindValues := bindValues
                    + [Text(SearchPattern(OrElse(p.searchOperator, "contains"), p.searchValue.value))];
    }
    assert Given(conditions, bindValues) == SearchCondition(p);
    if p.filterValue.Some? {
      var column, value := FilterColumn(OrElse(p.filterField, "email")), p.filterValue.value;
      var operator := OrElse(p.filterOperator, "eq");
      var index := |bindValues| + 1;
      if operator == "contains" {
        AlignedOneMore(conditions, bindValues, LowerLikeExpression(column), Text("%" + EscapeLike(value) + "%"));
        conditions := conditions + [Slot(LowerLikeExpression(column), index)];
        bindValues := bindValues + [Text("%" + EscapeLike(value) + "%")];
      } else if operator == "ne" {
        AlignedOneMore(conditions, bindValues, NotEqual(column), Text(value));
        conditions := conditions + [Slot(NotEqual(column), index)];
        bindValues := bindValues + [Text(value)];
      } else {
        AlignedOneMore(conditions, bindValues, Equal(column), Text(value));
        conditions := conditions + [Slot(Equal(column), index)];
        bindValues := bindValues + [Text(value)];
      }
    } else {
      assert SearchCondition(p) + [] == SearchCondition(p);
    }
  }

  /** The counting query binds the conditions; the query for the page binds the same and then its limit and offset. */
  method ListUsers(p: ListParams)
    returns (countSlots: seq<Slot>, countParams: seq<SqlParam>, dataSlots: seq<Slot>, dataParams: seq<SqlParam>)
    ensures Aligned(countSlots, countParams) && Aligned(dataSlots, dataParams)
    ensures Given(countSlots, countParams) == SearchCondition(p) + FilterCondition(p)
    ensures Given(dataSlots, dataParams) == SearchCondition(p) + FilterCondition(p) + Page(p)
  {
    hide SearchCondition, FilterCondition, AsInt64;
    var limit, offset := AsInt64(OrElse(p.limit, 100)), AsInt64(OrElse(p.offset, 0));
    countSlots, countParams := WhereClause(p);
    dataParams := countParams;
    dataParams := dataParams + [Integer(limit)];
    dataParams := dataParams + [Integer(offset)];
    dataSlots := countSlots + [Slot(Limit, |dataParams| - 1)];
    dataSlots := dataSlots + [Slot(Offset, |dataParams|)];
    AlignedOneMore(countSlots, countParams, Limit, Integer(limit));
    ghost var limited := countSlots + [Slot(Limit, |dataParams| - 1)];
    AlignedOneMore(limited, countParams + [Integer(limit)], Offset, Integer(offset));
    assert SearchCondition(p) + FilterCondition(p) + Page(p) ==
           SearchCondition(p) + FilterCondition(p) + [(Limit, Integer(limit))] + [(Offset, Integer(offset))];
  }

  // ---------------------------------------------------------------------------------------------
  // Which statements a database accepts
  // ---------------------------------------------------------------------------------------------

  /** A LIKE takes one escape character; PostgreSQL also takes none. Anything longer is an error. */
  predicate AcceptsEscape(dialect: Dialect, escape: string) {
    |escape| == 1 || (escape == "" && dialect == Postgres)
  }

  ghost predicate Refused(dialect: Dialect, given: seq<(Use, SqlParam)>) {
    exists k :: 0 <= k < |given| && given[k].0.LowerLike? && !AcceptsEscape(dialect, given[k].0.escape)
  }

  predicate Searches(p: ListParams) {
    p.searchValue.Some? || (p.filterValue.Some? && p.filterOperator == Some("contains"))
  }

  /** The escape literal of the code has two characters, which neither database accepts. */
  lemma EscapeLiteralIsTooLong(dialect: Dialect)
    ensures |LiteralValue(ESCAPE_LITERAL)| == 2 && !AcceptsEscape(dialect, LiteralValue(ESCAPE_LITERAL))
  {
  }

  /** Of the statements that list users, a database refuses exactly those that search or filter by containment. */
  lemma ListingIsRefusedIffItSearches(p: ListParams, dialect: Dialect)
    ensures Refused(dialect, SearchCondition(p) + FilterCondition(p)) <==> Searches(p)
    ensures Refused(dialect, SearchCondition(p) + FilterCondition(p) + Page(p)) <==> Searches(p)
  {
    EscapeLiteralIsTooLong(dialect);
    var search, filter, page := SearchCondition(p), FilterCondition(p), Page(p);
    RefusedConcat(dialect, search, filter);
    RefusedConcat(dialect, search + filter, page);
    if p.searchValue.Some? {
      assert search[0].0 == LowerLikeExpression(search[0].0.column);
    }
    if p.filterValue.Some? && p.filterOperator == Some("contains") {
      assert filter[0].0 == LowerLikeExpression(filter[0].0.column);
    }
    hide AcceptsEscape;
  }

  lemma RefusedConcat(dialect: Dialect, a: seq<(Use, SqlParam)>, b: seq<(Use, SqlParam)>)
    ensures Refused(dialect, a + b) <==> Refused(dialect, a) || Refused(dialect, b)
  {
    hide AcceptsEscape;
    assert forall k :: 0 <= k < |a| ==> (a + b)[k] == a[k];
    assert forall k :: 0 <= k < |b| ==> (a + b)[|a| + k] == b[k];
    if Refused(dialect, a) {
      var k :| 0 <= k < |a| && a[k].0.LowerLike? && !AcceptsEscape(dialect, a[k].0.escape);
      assert (a + b)[k] == a[k];
    }
    if Refused(dialect, b) {
      var k :| 0 <= k < |b| && b[k].0.LowerLike? && !AcceptsEscape(dialect, b[k].0.escape);
      assert (a + b)[|a| + k] == b[k];
    }
    if Refused(dialect, a + b) && !Refused(dialect, a) {
      var k :| 0 <= k < |a + b| && (a + b)[k].0.LowerLike? && !AcceptsEscape(dialect, (a + b)[k].0.escape);
      assert b[k - |a|] == (a + b)[k];
    }
  }

  /** For instance a plain search for a name. */
  lemma PlainSearchIsRefused(dialect: Dialect)
    ensures var p := ListParams(None, None, Some("ann"), Some("name"), None, None, None, None);
            Refused(dialect, SearchCondition(p) + FilterCondition(p))
  {
    var p := ListParams(None, None, Some("ann"), Some("name"), None, None, None, None);
    ListingIsRefusedIffItSearches(p, dialect);
  }

  // ---------------------------------------------------------------------------------------------
  // What the patterns would match under a one-character escape
  // ---------------------------------------------------------------------------------------------

  /** LIKE: the escape character, if there is one, goes before the wildcards. */
  predicate Matches(pattern: string, text: string, escape: Option<char>)
    decreases |pattern|, |text|
  {
    if pattern == "" then text == ""
    else if escape == Some(pattern[0]) && |pattern| > 1 then
      text != "" && text[0] == pattern[1] && Matches(pattern[2..], text[1..], escape)
    else if pattern[0] == '%' then
      Matches(pattern[1..], text, escape) || (text != "" && Matches(pattern, text[1..], escape))
    else text != "" && (pattern[0] == '_' || text[0] == pattern[0]) && Matches(pattern[1..], text[1..], escape)
  }

  datatype LikeResult = Refusal | Answer(found: bool)

  /** LOWER as a map of characters. */
  function Lowered(s: string, lower: char -> char): (r: string)
    ensures |r| == |s| && forall i :: 0 <= i < |s| ==> r[i] == lower(s[i])
  {
    seq(|s|, i requires 0 <= i < |s| => lower(s[i]))
  }

  /** The condition on a column's text: both sides are lowered, and the escape must be acceptable. */
  function LowerLikeResult(dialect: Dialect, escape: string, pattern: string, text: string, lower: char -> char):
      LikeResult {
    if !AcceptsEscape(dialect, escape) then Refusal
    else
      Answer(Matches(Lowered(pattern, lower), Lowered(text, lower), if escape == "" then None else Some(escape[0])))
  }

  predicate Special(c: char) {
    c == '\\' || c == '%' || c == '_'
  }

  /** Escaping in one pass. */
  function Escaped(s: string): string {
    if s == "" then "" else (if Special(s[0]) then ['\\', s[0]] else [s[0]]) + Escaped(s[1..])
  }

  lemma {:induction false} ReplaceConcat(a: string, b: string, c: char, with: string)
    ensures Replace(a + b, c, with) == Replace(a, c, with) + Replace(b, c, with)
  {
    if a == "" {
      assert a + b == b;
    } else {
      ReplaceConcat(a[1..], b, c, with);
      ReplaceUnfolds(a, c, with);
      ReplaceUnfolds(a + b, c, with);
      hide *;
      assert (a + b)[0] == a[0] && (a + b)[1..] == a[1..] + b;
      JoinIsAssociative(if a[0] == c then with else [a[0]], Replace(a[1..], c, with), Replace(b, c, with));
    }
  }

  lemma ReplaceUnfolds(s: string, c: char, with: string)
    requires s != ""
    ensures Replace(s, c, with) == (if s[0] == c then with else [s[0]]) + Replace(s[1..], c, with)
  {
  }

  lemma ReplaceOne(x: char, c: char, with: string)
    ensures Replace([x], c, with) == if x == c then with else [x]
  {
    assert [x][1..] == "";
  }

  /** What the three replacements make of one character: they do not escape each other's backslashes. */
  lemma EscapeLikeOne(x: char)
    ensures EscapeLike([x]) == if Special(x) then ['\\', x] else [x]
  {
    ReplaceOne(x, '\\', "\\\\");
    ReplaceOne(x, '%', "\\%");
    ReplaceOne(x, '_', "\\_");
    if x == '\\' {
      ReplaceConcat("\\", "\\", '%', "\\%");
      ReplaceConcat("\\", "\\", '_', "\\_");
      assert "\\" + "\\" == "\\\\";
    } else if x == '%' {
      ReplaceOne('\\', '_', "\\_");
      ReplaceConcat("\\", "%", '_', "\\_");
      assert "\\" + "%" == "\\%";
    }
  }

  lemma {:induction false} EscapeLikeIsOnePass(s: string)
    ensures EscapeLike(s) == Escaped(s)
  {
    if s != "" {
      var x, rest := [s[0]], s[1..];
      assert s == x + rest;
      EscapeLikeOne(s[0]);
      EscapeLikeIsOnePass(rest);
      ReplaceConcat(x, rest, '\\', "\\\\");
      var a, b := Replace(x, '\\', "\\\\"), Replace(rest, '\\', "\\\\");
      ReplaceConcat(a, b, '%', "\\%");
      ReplaceConcat(Replace(a, '%', "\\%"), Replace(b, '%', "\\%"), '_', "\\_");
      hide Replace;
    }
  }

  const BACKSLASH: Option<char> := Some('\\')

  /** An escaped value matches itself and nothing else, whatever follows it in the pattern. */
  lemma {:induction false} EscapedIsLiteral(value: string, pattern: string, text: string)
    ensures Matches(Escaped(value) + pattern, text, BACKSLASH) <==>
            value <= text && Matches(pattern, text[|value|..], BACKSLASH)
  {
    if value == "" {
      assert Escaped(value) + pattern == pattern && text[0..] == text;
    } else {
      var whole, rest := Escaped(value) + pattern, Escaped(value[1..]) + pattern;
      if Special(value[0]) {
        assert whole[0] == '\\' && whole[1] == value[0] && whole[2..] == rest;
      } else {
        assert whole[0] == value[0] && whole[1..] == rest;
      }
      if text != "" {
        EscapedIsLiteral(value[1..], pattern, text[1..]);
        assert value <= text <==> value[0] == text[0] && value[1..] <= text[1..];
        assert value <= text ==> text[1..][|value| - 1..] == text[|value|..];
      }
    }
  }

  /** The pattern matches some end of the text. */
  ghost predicate MatchesSomeEnd(pattern: string, text: string) {
    exists k :: 0 <= k <= |text| && Matches(pattern, text[k..], BACKSLASH)
  }

  lemma {:induction false} PercentMatchesAnything(pattern: string, text: string)
    ensures Matches("%" + pattern, text, BACKSLASH) <==> MatchesSomeEnd(pattern, text)
    decreases |text|
  {
    assert ("%" + pattern)[1..] == pattern;
    assert text[0..] == text;
    if text != "" {
      PercentMatchesAnything(pattern, text[1..]);
      if MatchesSomeEnd(pattern, text[1..]) {
        var k :| 0 <= k <= |text[1..]| && Matches(pattern, text[1..][k..], BACKSLASH);
        assert text[1..][k..] == text[k + 1..];
      }
      if MatchesSomeEnd(pattern, text) && !Matches(pattern, text, BACKSLASH) {
        var k :| 0 <= k <= |text| && Matches(pattern, text[k..], BACKSLASH);
        assert text[k..] == text[1..][k - 1..];
      }
    } else {
      assert MatchesSomeEnd(pattern, text) ==> Matches(pattern, text, BACKSLASH);
    }
  }

  /** What a pattern asks for, taken literally. */
  ghost predicate FindsLiterally(operator: string, value: string, text: string) {
    if operator == "starts_with" then value <= text
    else if operator == "ends_with" then exists k :: 0 <= k <= |text| && text[k..] == value
    else exists k :: 0 <= k <= |text| && value <= text[k..]
  }

  lemma PatternIsLiteral(operator: string, value: string, text: string)
    ensures Matches(SearchPattern(operator, value), text, BACKSLASH) <==> FindsLiterally(operator, value, text)
  {
    EscapeLikeIsOnePass(value);
    forall k | 0 <= k <= |text|
      ensures Matches(Escaped(value), text[k..], BACKSLASH) <==> text[k..] == value
      ensures Matches(Escaped(value) + "%", text[k..], BACKSLASH) <==> value <= text[k..]
    {
      EscapedIsLiteral(value, "", text[k..]);
      assert Escaped(value) + "" == Escaped(value);
      EscapedIsLiteral(value, "%", text[k..]);
      if value <= text[k..] {
        PercentMatchesAll(text[k..][|value|..]);
      }
    }
    assert text[0..] == text;
    hide Matches, EscapeLike, Escaped;
    PercentMatchesAnything(Escaped(value), text);
    PercentMatchesAnything(Escaped(value) + "%", text);
    assert "%" + (Escaped(value) + "%") == "%" + Escaped(value) + "%";
  }

  /** Lowering moves letters only: it neither changes a special character nor makes one. */
  ghost predicate KeepsSpecials(lower: char -> char) {
    forall c :: if Special(c) then lower(c) == c else !Special(lower(c))
  }

  lemma LoweredConcat(a: string, b: string, lower: char -> char)
    ensures Lowered(a + b, lower) == Lowered(a, lower) + Lowered(b, lower)
  {
  }

  lemma {:induction false} LoweredEscape(value: string, lower: char -> char)
    requires KeepsSpecials(lower)
    ensures Lowered(Escaped(value), lower) == Escaped(Lowered(value, lower))
  {
    if value == "" {
      assert Lowered("", lower) == "";
    } else {
      var first := if Special(value[0]) then ['\\', value[0]] else [value[0]];
      LoweredEscape(value[1..], lower);
      LoweredConcat(first, Escaped(value[1..]), lower);
      assert Special('\\') && lower('\\') == '\\';
      assert Lowered(value, lower)[1..] == Lowered(value[1..], lower);
      assert Lowered(first, lower) == if Special(value[0]) then ['\\', value[0]] else [lower(value[0])];
    }
  }

  lemma LoweredPattern(operator: string, value: string, lower: char -> char)
    requires KeepsSpecials(lower)
    ensures Lowered(SearchPattern(operator, value), lower) == SearchPattern(operator, Lowered(value, lower))
  {
    EscapeLikeIsOnePass(value);
    EscapeLikeIsOnePass(Lowered(value, lower));
    LoweredEscape(value, lower);
    assert Special('%') && Lowered("%", lower) == "%";
    LoweredConcat(Escaped(value), "%", lower);
    LoweredConcat("%", Escaped(value), lower);
    LoweredConcat("%" + Escaped(value), "%", lower);
    hide EscapeLike, Escaped, Lowered;
  }

  /**
   * With a single backslash as the escape, a search finds exactly the texts that start with, end with or contain the
   * value taken literally, up to case: a typed `%`, `_` or backslash stands for itself. With the literal the code
   * writes there is no answer at all.
   */
  lemma SearchIsLiteralUpToCase(
    dialect: Dialect, operator: string, value: string, text: string, lower: char -> char)
    requires KeepsSpecials(lower)
    ensures LowerLikeResult(dialect, "\\", SearchPattern(operator, value), text, lower) ==
            Answer(FindsLiterally(operator, Lowered(value, lower), Lowered(text, lower)))
    ensures LowerLikeResult(dialect, LiteralValue(ESCAPE_LITERAL), SearchPattern(operator, value), text, lower) ==
            Refusal
  {
    EscapeLiteralIsTooLong(dialect);
    LoweredPattern(operator, value, lower);
    PatternIsLiteral(operator, Lowered(value, lower), Lowered(text, lower));
    hide Matches, SearchPattern, Lowered, FindsLiterally;
  }

  lemma PercentMatchesAll(text: string)
    ensures Matches("%", text, BACKSLASH)
  {
    PercentMatchesAnything("", text);
    assert "%" + "" == "%" && Matches("", text[|text|..], BACKSLASH);
  }

  // ---------------------------------------------------------------------------------------------
  // What a listing selects
  // ---------------------------------------------------------------------------------------------

  /** The columns of a user that a listing can ask about; a name or role may be NULL. */
  datatype User = User(email: string, name: Option<string>, role: Option<string>)

  function TextOf(user: User, column: Column): Option<string> {
    match column
    case Email => Some(user.email)
    case Name => user.name
    case Role => user.role
    case _ => None
  }

  /** One condition of a WHERE clause: a comparison with NULL selects nothing. */
  function Selects(dialect: Dialect, use: Use, value: SqlParam, user: User, lower: char -> char): LikeResult {
    match use
    case Equal(column) => Answer(TextOf(user, column).Some? && value == Text(TextOf(user, column).value))
    case NotEqual(column) => Answer(TextOf(user, column).Some? && value != Text(TextOf(user, column).value))
    case LowerLike(column, escape) =>
      if !AcceptsEscape(dialect, escape) then Refusal
      else if TextOf(user, column).None? || !value.Text? then Answer(false)
      else LowerLikeResult(dialect, escape, value.text, TextOf(user, column).value, lower)
    case _ => Answer(true)
  }

  /** All conditions together. */
  function SelectsAll(dialect: Dialect, given: seq<(Use, SqlParam)>, user: User, lower: char -> char): LikeResult {
    if given == [] then Answer(true)
    else
      match (Selects(dialect, given[0].0, given[0].1, user, lower), SelectsAll(dialect, given[1..], user, lower))
      case (Answer(a), Answer(b)) => Answer(a && b)
      case _ => Refusal
  }

  /** The same conditions with another escape. */
  function WithEscape(given: seq<(Use, SqlParam)>, escape: string): seq<(Use, SqlParam)> {
    seq(|given|, i requires 0 <= i < |given| =>
      if given[i].0.LowerLike? then (LowerLike(given[i].0.column, escape), given[i].1) else given[i])
  }

  function FieldNamed(user: User, field: Option<string>): Option<string> {
    if field == Some("name") then user.name else if field == Some("role") then user.role else Some(user.email)
  }

  /** What the search asks for: the text of a name, or else of the email, taken literally and up to case. */
  ghost predicate SearchWants(p: ListParams, user: User, lower: char -> char) {
    p.searchValue.Some? ==>
      var field := if p.searchField == Some("name") then user.name else Some(user.email);
      var operator := if p.searchOperator.Some? then p.searchOperator.value else "contains";
      field.Some? && FindsLiterally(operator, Lowered(p.searchValue.value, lower), Lowered(field.value, lower))
  }

  /** What the filter asks for: a field that is the value, is not, or contains it up to case. */
  ghost predicate FilterWants(p: ListParams, user: User, lower: char -> char) {
    p.filterValue.Some? ==>
      var field, value := FieldNamed(user, p.filterField), p.filterValue.value;
      && field.Some?
      && if p.filterOperator == Some("contains") then
           FindsLiterally("contains", Lowered(value, lower), Lowered(field.value, lower))
         else (field.value == value) == (p.filterOperator != Some("ne"))
  }

  lemma OneCondition(dialect: Dialect, use: Use, value: SqlParam, user: User, lower: char -> char)
    ensures SelectsAll(dialect, [(use, value)], user, lower) == Selects(dialect, use, value, user, lower)
    ensures SelectsAll(dialect, [], user, lower) == Answer(true)
  {
    assert [(use, value)][1..] == [];
  }

  lemma TwoConditions(dialect: Dialect, a: seq<(Use, SqlParam)>, b: seq<(Use, SqlParam)>, user: User,
                      lower: char -> char)
    requires |a| <= 1 && SelectsAll(dialect, a, user, lower).Answer? && SelectsAll(dialect, b, user, lower).Answer?
    ensures SelectsAll(dialect, a + b, user, lower) ==
            Answer(SelectsAll(dialect, a, user, lower).found && SelectsAll(dialect, b, user, lower).found)
  {
    hide Selects;
    if a == [] {
      assert a + b == b;
    } else {
      assert (a + b)[0] == a[0] && (a + b)[1..] == b && a[1..] == [];
    }
  }

  lemma SearchSelects(p: ListParams, dialect: Dialect, user: User, lower: char -> char)
    requires KeepsSpecials(lower)
    ensures SelectsAll(dialect, WithEscape(SearchCondition(p), "\\"), user, lower) ==
            Answer(SearchWants(p, user, lower))
  {
    if p.searchValue.Some? {
      var value, operator := p.searchValue.value, OrElse(p.searchOperator, "contains");
      var column := if OrElse(p.searchField, "email") == "name" then Name else Email;
      var pattern := Text(SearchPattern(operator, value));
      assert WithEscape(SearchCondition(p), "\\") == [(LowerLike(column, "\\"), pattern)];
      OneCondition(dialect, LowerLike(column, "\\"), pattern, user, lower);
      if TextOf(user, column).Some? {
        SearchIsLiteralUpToCase(dialect, operator, value, TextOf(user, column).value, lower);
      }
      hide LowerLikeResult, FindsLiterally, SearchPattern, Lowered, SelectsAll, WithEscape, KeepsSpecials;
    }
  }

  lemma FilterSelects(p: ListParams, dialect: Dialect, user: User, lower: char -> char)
    requires KeepsSpecials(lower)
    ensures SelectsAll(dialect, WithEscape(FilterCondition(p), "\\"), user, lower) ==
            Answer(FilterWants(p, user, lower))
  {
    if p.filterValue.Some? {
      var value, operator := p.filterValue.value, OrElse(p.filterOperator, "eq");
      var column := FilterColumn(OrElse(p.filterField, "email"));
      if operator == "contains" {
        var pattern := Text(SearchPattern("contains", value));
        assert WithEscape(FilterCondition(p), "\\") == [(LowerLike(column, "\\"), pattern)];
        OneCondition(dialect, LowerLike(column, "\\"), pattern, user, lower);
        if TextOf(user, column).Some? {
          SearchIsLiteralUpToCase(dialect, "contains", value, TextOf(user, column).value, lower);
        }
      } else {
        var use := if operator == "ne" then NotEqual(column) else Equal(column);
        assert WithEscape(FilterCondition(p), "\\") == [(use, Text(value))];
        OneCondition(dialect, use, Text(value), user, lower);
      }
      hide LowerLikeResult, FindsLiterally, SearchPattern, Lowered, SelectsAll, WithEscape, KeepsSpecials;
    }
  }

  /**
   * The conditions of a listing, read with one backslash as the escape, select exactly the users the search and the
   * filter ask for. Without a search and without a containment filter the escape is not used, and the statement that is
   * sent selects them.
   */
  lemma ListingSelectsWhatIsAskedFor(p: ListParams, dialect: Dialect, user: User, lower: char -> char)
    requires KeepsSpecials(lower)
    ensures var given := SearchCondition(p) + FilterCondition(p);
            && SelectsAll(dialect, WithEscape(given, "\\"), user, lower) ==
               Answer(SearchWants(p, user, lower) && FilterWants(p, user, lower))
            && (!Searches(p) ==> WithEscape(given, "\\") == given)
  {
    SearchSelects(p, dialect, user, lower);
    FilterSelects(p, dialect, user, lower);
    var a, b := WithEscape(SearchCondition(p), "\\"), WithEscape(FilterCondition(p), "\\");
    assert WithEscape(SearchCondition(p) + FilterCondition(p), "\\") == a + b;
    TwoConditions(dialect, a, b, user, lower);
    hide SelectsAll, SearchWants, FilterWants, KeepsSpecials;
  }

  /** The cast keeps the number modulo 2^64, and every number below 2^63. */
  lemma CastKeepsTheNumber(x: nat)
    ensures -TWO_POW_64 / 2 <= AsInt64(x) < TWO_POW_64 / 2
    ensures (x - AsInt64(x)) % TWO_POW_64 == 0
    ensures x < TWO_POW_64 / 2 ==> AsInt64(x) == x
  {
  }

  /** The page is the one asked for, the first hundred users by default; sizes below 2^63 arrive as they are. */
  lemma PageIsAsAsked(p: ListParams)
    requires p.limit.Some? ==> p.limit.value < TWO_POW_64 / 2
    requires p.offset.Some? ==> p.offset.value < TWO_POW_64 / 2
    ensures Page(p) == [(Limit, Integer(if p.limit.Some? then p.limit.value else 100)),
                        (Offset, Integer(if p.offset.Some? then p.offset.value else 0))]
  {
  }
}
