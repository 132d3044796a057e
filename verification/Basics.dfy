/** What several of the models need. */
module Basics {
  datatype Option<+T> = None | Some(value: T)

  /** Names a member, for a choice that has to be shown possible. */
  lemma SomeMember<T>(members: set<T>) returns (member: T)
    requires members != {}
    ensures member in members
  {
    member :| member in members;
  }
}
