/** Optional values, as used by the room and leaderboard models. */
module Wrappers {

  /** `null` in the source becomes None. */
  datatype Option<+T> = None | Some(value: T)
}
