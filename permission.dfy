/**
 * The permission gate `searchEngine` applies to every row of the page
 * window. The group and user lists of a record, which the source reads
 * through `getPermission`, are parameters.
 */
module Permission {

  /** The user id a record's user list holds when every user may read it. */
  const Everybody: int := -1

  /** The user list lets `currentUser` in: it holds -1 or that very user. */
  predicate UserAllows(permUser: seq<int>, currentUser: int) {
    exists i :: 0 <= i < |permUser| && (permUser[i] == Everybody || permUser[i] == currentUser)
  }

  /** One of the groups of the current user is among the record's groups. */
  predicate GroupsMeet(currentGroups: seq<int>, permGroup: seq<int>) {
    exists i :: 0 <= i < |currentGroups| && currentGroups[i] in permGroup
  }

  /**
   * Whether the row is shown, by permission level: under "basic" the user
   * list decides; under "medium" a shared group is needed, and then a
   * non-empty user list must also let the user in; under any other level
   * nothing is shown.
   */
  predicate Permitted(level: string, currentGroups: seq<int>, currentUser: int,
                      permGroup: seq<int>, permUser: seq<int>)
  {
    if level == "basic" then UserAllows(permUser, currentUser)
    else if level == "medium" then
      GroupsMeet(currentGroups, permGroup) && (permUser == [] || UserAllows(permUser, currentUser))
    else false
  }

  /**
   * Lines 1064-1089: the group loop sets the flag when a group matches;
   * the user loop then runs under "basic" or with the flag set, stops at
   * the first entry that is -1 or the current user and clears the flag at
   * every other entry.
   */
  method Gate(level: string, currentGroups: seq<int>, currentUser: int,
              permGroup: seq<int>, permUser: seq<int>) returns (allowed: bool)
    ensures allowed == Permitted(level, currentGroups, currentUser, permGroup, permUser)
  {
    allowed := false;
    if level == "medium" {
      var i := 0;
      while i < |currentGroups|
        invariant 0 <= i <= |currentGroups|
        invariant allowed <==> exists j :: 0 <= j < i && currentGroups[j] in permGroup
      {
        if currentGroups[i] in permGroup {
          allowed := true;
        }
        i := i + 1;
      }
    }
    if level == "basic" || allowed {
      ghost var before := allowed;
      var i := 0;
      while i < |permUser|
        invariant 0 <= i <= |permUser|
        invariant forall j :: 0 <= j < i ==> permUser[j] != Everybody && permUser[j] != currentUser
        invariant if i == 0 then allowed == before else !allowed
      {
        if permUser[i] == Everybody {
          allowed := true;
          break;
        } else if permUser[i] == currentUser {
          allowed := true;
          break;
        } else {
          allowed := false;
        }
        i := i + 1;
      }
    }
  }

  /**
   * Under "medium" a user list that names the visitor does not make up for
   * a missing group: the user loop only runs once a group has matched.
   */
  lemma MediumNeedsGroup(currentGroups: seq<int>, currentUser: int, permGroup: seq<int>, permUser: seq<int>)
    requires !GroupsMeet(currentGroups, permGroup)
    ensures !Permitted("medium", currentGroups, currentUser, permGroup, permUser)
  {
  }
}
