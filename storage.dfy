/**
 * The browser's local storage as the core uses it: string keys, each holding the
 * decoded form of the JSON text stored under it. JSON encoding itself is not modelled;
 * a value is kept in the shape the code parses it into.
 */
module Storage {
  import opened Wrappers
  import opened Tally

  /**
   * The storage keys the core reads and writes: the session keys of the sign-in flow
   * (js/auth.js) and the two voting keys (lebaouivoting/js/voting.js:16-17).
   */
  datatype Key = TokenKey | UserKey | GuildsKey | VotesKey | UserVoteKey

  /** The text under which each key is stored in the browser. */
  function KeyName(k: Key): (name: string) {
    match k
    case TokenKey => "discord_token"
    case UserKey => "discord_user"
    case GuildsKey => "discord_guilds"
    case VotesKey => "election_votes"
    case UserVoteKey => "user_vote"
  }

  /** Distinct keys are stored under distinct texts, so no two of them share an entry. */
  lemma KeyNamesDistinct(a: Key, b: Key)
    ensures KeyName(a) == KeyName(b) <==> a == b
  {
    if a != b {
      assert KeyName(a)[..5] != KeyName(b)[..5] || KeyName(a)[8] != KeyName(b)[8];
    }
  }

  /** The signed-in Discord user; `avatar` is null for users with a default avatar. */
  datatype User = User(id: string, username: string, discriminator: string, avatar: Option<string>)

  datatype Guild = Guild(id: string)

  /** The single stored vote record (lebaouivoting/js/voting.js:82-89). */
  datatype VoteRecord = VoteRecord(
    candidateId: string,
    candidateName: string,
    userId: string,
    username: string,
    timestamp: string,
    voteId: string)

  /** A stored entry: raw text (the access token) or a decoded JSON value. */
  datatype Value =
    | Text(text: string)
    | UserData(user: User)
    | GuildList(guilds: seq<Guild>)
    | Votes(tally: Tally)
    | Record(record: VoteRecord)

  type Store = map<Key, Value>

  /**
   * Whether `getItem` returns a truthy string: raw text when it is non-empty;
   * the JSON text of a decoded value is never empty.
   */
  predicate Truthy(v: Value) {
    v.Text? ==> v.text != ""
  }

  /** Each key the core reads holds the shape its writer stores there. */
  predicate WellTyped(st: Store) {
    && (TokenKey in st ==> st[TokenKey].Text?)
    && (UserKey in st ==> st[UserKey].UserData?)
    && (GuildsKey in st ==> st[GuildsKey].GuildList?)
    && (VotesKey in st ==> st[VotesKey].Votes?)
    && (UserVoteKey in st ==> st[UserVoteKey].Record?)
  }

  /** The `localStorage` object: one map that every module reads and writes in place. */
  class LocalStorage {
    var entries: Store

    ghost predicate Valid()
      reads this
    {
      WellTyped(entries)
    }

    constructor ()
      ensures Valid() && entries == map[]
    {
      entries := map[];
    }

    /** `localStorage.setItem(key, value)`. */
    method SetItem(key: Key, v: Value)
      modifies this
      ensures entries == old(entries)[key := v]
    {
      entries := entries[key := v];
    }

    /** `localStorage.removeItem(key)`: removing an absent key changes nothing. */
    method RemoveItem(key: Key)
      modifies this
      ensures entries == old(entries) - {key}
      ensures old(Valid()) ==> Valid()
    {
      entries := entries - {key};
    }
  }
}
