/**
 * Identity queries over the stored Discord session (js/auth.js): pure reads of the
 * session keys, and `logout`, which removes them.
 */
module Auth {
  import opened Wrappers
  import opened Decimal
  import opened Storage
  import Config

  /** `isAuthenticated`: a non-empty token and a user entry are both stored. */
  predicate IsAuthenticated(st: Store) {
    && TokenKey in st && Truthy(st[TokenKey])
    && UserKey in st && Truthy(st[UserKey])
  }

  /** `getUser`: the stored user, or null when there is none. */
  function GetUser(st: Store): (u: Option<User>)
    ensures u.Some? ==> UserKey in st && st[UserKey] == UserData(u.value)
    ensures WellTyped(st) ==> (u.Some? <==> UserKey in st)
  {
    if UserKey in st && st[UserKey].UserData? then Some(st[UserKey].user) else None
  }

  /** A session that passes `isAuthenticated` always has a user to read. */
  lemma AuthenticatedHasUser(st: Store)
    requires WellTyped(st) && IsAuthenticated(st)
    ensures GetUser(st).Some?
  {
  }

  /** `guilds.some(guild => guild.id === serverId)`. */
  function SomeGuildHasId(guilds: seq<Guild>, serverId: string): (b: bool)
    ensures b <==> exists i :: 0 <= i < |guilds| && guilds[i].id == serverId
  {
    if guilds == [] then false
    else if guilds[0].id == serverId then true
    else
      var b := SomeGuildHasId(guilds[1..], serverId);
      assert b ==> exists i :: 0 <= i < |guilds| && guilds[i].id == serverId by {
        if b {
          var i :| 0 <= i < |guilds[1..]| && guilds[1..][i].id == serverId;
          assert guilds[i + 1] == guilds[1..][i];
        }
      }
      assert (exists i :: 0 <= i < |guilds| && guilds[i].id == serverId) ==> b by {
        if i :| 0 <= i < |guilds| && guilds[i].id == serverId {
          assert i > 0 && guilds[1..][i - 1] == guilds[i];
        }
      }
      b
  }

  /**
   * `isServerMember` against the configured server id: every session qualifies when the
   * id is empty or still the placeholder; otherwise a stored guild must carry that id.
   */
  function IsServerMember(st: Store, serverId: string): (b: bool)
    ensures serverId == "" || serverId == Config.PLACEHOLDER_SERVER_ID ==> b
    ensures serverId != "" && serverId != Config.PLACEHOLDER_SERVER_ID ==>
              (b <==> GuildsKey in st && st[GuildsKey].GuildList?
                      && exists i :: 0 <= i < |st[GuildsKey].guilds| && st[GuildsKey].guilds[i].id == serverId)
  {
    if serverId == "" || serverId == Config.PLACEHOLDER_SERVER_ID then true
    else if GuildsKey !in st || !st[GuildsKey].GuildList? then false
    else SomeGuildHasId(st[GuildsKey].guilds, serverId)
  }

  /** With the shipped configuration, membership never blocks anyone. */
  lemma ShippedConfigAdmitsEveryone(st: Store)
    ensures IsServerMember(st, Config.SERVER_ID)
  {
  }

  /** `username#discriminator`, or the bare username for the new-style discriminator "0". */
  function UserTag(u: User): (tag: string)
    ensures u.discriminator == "0" ==> tag == u.username
    ensures u.discriminator != "0" ==> tag == u.username + "#" + u.discriminator
  {
    if u.discriminator == "0" then u.username else u.username + "#" + u.discriminator
  }

  /** `getUserTag`: null without a user, else the user's tag. */
  function GetUserTag(st: Store): (tag: Option<string>)
    ensures tag.None? <==> GetUser(st).None?
    ensures tag.Some? ==> tag.value == UserTag(GetUser(st).value)
  {
    match GetUser(st)
    case None => None
    case Some(u) => Some(UserTag(u))
  }

  /**
   * JavaScript's `%`: the remainder of division truncated toward zero, so it differs from
   * the dividend by a multiple of the divisor, is smaller than the divisor in size, and
   * takes the sign of the dividend.
   */
  function JsRemainder(a: int, b: nat): (r: int)
    requires b > 0
    ensures (a - r) % b == 0
    ensures -(b as int) < r < b
    ensures a >= 0 ==> r >= 0
    ensures a < 0 ==> r <= 0
  {
    if a >= 0 then
      var q := a / b;
      assert a == b * q + a % b;
      MultipleOfDivisor(a - a % b, b, q);
      a % b
    else
      var q := (-a) / b;
      assert -a == b * q + (-a) % b;
      assert a + (-a) % b == b * -q;
      MultipleOfDivisor(a + (-a) % b, b, -q);
      -((-a) % b)
  }

  /** A multiple of a positive divisor leaves no remainder. */
  lemma MultipleOfDivisor(x: int, b: nat, k: int)
    requires b > 0 && x == b * k
    ensures x % b == 0
  {
    var d := k - x / b;
    assert b * d == x % b by {
      assert x == b * (x / b) + x % b;
    }
  }

  /** `parseInt(discriminator) % 5`; None stands for NaN. */
  function DefaultAvatarIndex(discriminator: string): (n: Option<int>)
    ensures n.Some? ==> -5 < n.value < 5
    ensures ParseInt(discriminator).None? <==> n.None?
    ensures n.Some? && ParseInt(discriminator).value >= 0 ==> 0 <= n.value < 5
  {
    match ParseInt(discriminator)
    case None => None
    case Some(v) => Some(JsRemainder(v, 5))
  }

  /** For a discriminator of plain digits the default avatar is its value mod 5, in 0..4. */
  lemma DigitDiscriminatorAvatar(discriminator: string)
    requires discriminator != "" && AllDigits(discriminator)
    ensures DefaultAvatarIndex(discriminator) == Some(DigitsValue(discriminator) % 5)
    ensures 0 <= DefaultAvatarIndex(discriminator).value <= 4
  {
  }

  /**
   * `parseInt` without a radix reads a "0x" discriminator as hex: "0x7" picks default
   * avatar 2, and a bare "0x" gives NaN.
   */
  lemma PrefixedDiscriminatorAvatars()
    ensures DefaultAvatarIndex("0x7") == Some(2)
    ensures DefaultAvatarIndex("0x").None?
  {
    ParseIntPrefixExamples();
  }

  /** How a template string writes the avatar index (NaN included). */
  function IndexText(n: Option<int>): (text: string) {
    match n
    case None => "NaN"
    case Some(v) => IntToString(v)
  }

  /** `getAvatarUrl(size)`: null without a user; the custom avatar when set, else a default one. */
  function GetAvatarUrl(st: Store, size: nat): (url: Option<string>)
    ensures url.None? <==> GetUser(st).None?
    ensures url.Some? ==>
              var u := GetUser(st).value;
              if u.avatar.Some? && u.avatar.value != "" then
                url.value == "https://cdn.discordapp.com/avatars/" + u.id + "/" + u.avatar.value
                             + ".png?size=" + NatToString(size)
              else
                url.value == "https://cdn.discordapp.com/embed/avatars/"
                             + IndexText(DefaultAvatarIndex(u.discriminator)) + ".png"
  {
    match GetUser(st)
    case None => None
    case Some(u) =>
      if u.avatar.Some? && u.avatar.value != "" then
        Some("https://cdn.discordapp.com/avatars/" + u.id + "/" + u.avatar.value
             + ".png?size=" + NatToString(size))
      else
        Some("https://cdn.discordapp.com/embed/avatars/"
             + IndexText(DefaultAvatarIndex(u.discriminator)) + ".png")
  }

  /**
   * The storage effect of a completed sign-in: the token and the fetched user stored, and
   * the guild list stored when the guilds response is ok (`guilds` is `None` for a
   * response that is not ok). A request that rejects or a body that does not parse ends
   * in `logout` instead; `HandleCallback` covers that path.
   */
  function SignIn(st: Store, token: string, u: User, guilds: Option<seq<Guild>>): (st': Store)
    ensures token != "" ==> IsAuthenticated(st') && GetUser(st') == Some(u)
    ensures guilds.Some? ==> GuildsKey in st' && st'[GuildsKey] == GuildList(guilds.value)
    ensures guilds.None? ==> (GuildsKey in st' <==> GuildsKey in st)
                             && (GuildsKey in st ==> st'[GuildsKey] == st[GuildsKey])
    ensures st'.Keys == st.Keys + {TokenKey, UserKey} + (if guilds.Some? then {GuildsKey} else {})
    ensures st' - {TokenKey, UserKey, GuildsKey} == st - {TokenKey, UserKey, GuildsKey}
    ensures (VotesKey in st' <==> VotesKey in st) && (VotesKey in st ==> st'[VotesKey] == st[VotesKey])
    ensures (UserVoteKey in st' <==> UserVoteKey in st) && (UserVoteKey in st ==> st'[UserVoteKey] == st[UserVoteKey])
    ensures WellTyped(st) ==> WellTyped(st')
  {
    var signed := st[TokenKey := Text(token)][UserKey := UserData(u)];
    if guilds.Some? then signed[GuildsKey := GuildList(guilds.value)] else signed
  }

  /** The size `getAvatarUrl` asks for when its caller gives none. */
  const DEFAULT_AVATAR_SIZE: nat := 128

  /** `getAvatarUrl()` called without an argument. */
  function GetDefaultAvatarUrl(st: Store): (url: Option<string>)
  {
    GetAvatarUrl(st, DEFAULT_AVATAR_SIZE)
  }

  /**
   * How the guilds request of `fetchUserData` ends: an ok response with its parsed list,
   * a response that is not ok (the entry is then not written), or a request that rejects
   * or a body that does not parse (which throws into the `catch`).
   */
  datatype GuildsResponse = GuildsOk(guilds: seq<Guild>) | GuildsNotOk | GuildsFailed

  /**
   * `handleCallback` followed by `fetchUserData`, as storage transitions. The access token
   * from the URL fragment is stored when it is non-empty; `user` is the parsed user, or
   * `None` when that request is not ok, rejects or does not parse. Any of those, or a
   * failed guilds request, lands in the `catch`, whose `logout` removes the session keys
   * just written. The redirect and the network calls are not modelled.
   */
  function HandleCallback(st: Store, token: string, user: Option<User>, guilds: GuildsResponse): (st': Store)
    ensures token == "" ==> st' == st
    ensures token != "" ==> (IsAuthenticated(st') <==> user.Some? && !guilds.GuildsFailed?)
    ensures token != "" && (user.None? || guilds.GuildsFailed?) ==> st' == SignedOut(st)
    ensures token != "" && user.Some? && guilds.GuildsOk? ==>
              GetUser(st') == user && GuildsKey in st' && st'[GuildsKey] == GuildList(guilds.guilds)
    ensures token != "" && user.Some? && guilds.GuildsNotOk? ==>
              GetUser(st') == user && (GuildsKey in st' <==> GuildsKey in st)
    ensures st' - {TokenKey, UserKey, GuildsKey} == st - {TokenKey, UserKey, GuildsKey}
  {
    if token == "" then st
    else
      var withToken := st[TokenKey := Text(token)];
      match user
      case None => SignedOut(withToken)
      case Some(u) =>
        match guilds
        case GuildsFailed => SignedOut(withToken[UserKey := UserData(u)])
        case GuildsNotOk => SignIn(st, token, u, None)
        case GuildsOk(gs) => SignIn(st, token, u, Some(gs))
  }

  /** The storage after `logout`: the three session keys removed, nothing else touched. */
  function SignedOut(st: Store): (st': Store)
    ensures st'.Keys == st.Keys - {TokenKey, UserKey, GuildsKey}
    ensures forall k :: k in st' ==> st'[k] == st[k]
    ensures !IsAuthenticated(st') && GetUser(st').None?
    ensures WellTyped(st) ==> WellTyped(st')
  {
    st - {TokenKey, UserKey, GuildsKey}
  }

  /** `logout`: remove the token, the user and the guilds, one key at a time. */
  method Logout(ls: LocalStorage)
    modifies ls
    ensures ls.entries == SignedOut(old(ls.entries))
  {
    ls.RemoveItem(TokenKey);
    ls.RemoveItem(UserKey);
    ls.RemoveItem(GuildsKey);
  }
}
