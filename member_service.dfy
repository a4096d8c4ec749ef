/** `MemberService.getMember`: the lookup of a member by its unique name. */
module MemberService {
  import opened Results
  import opened Domain

  /** The id of the member called `name`, or NotFound when there is none. */
  function GetMember(db: Db, name: string): (r: Result<MemberId, Error>)
    requires UniqueNames(db.members)
    ensures r.Ok? <==> exists id :: id in db.members && db.members[id].name == name
    ensures r.Ok? ==> r.value in db.members && db.members[r.value].name == name
    ensures r.Err? ==> r.error == NotFound
  {
    if exists id | id in db.members :: db.members[id].name == name then
      var id :| id in db.members && db.members[id].name == name;
      Ok(id)
    else
      Err(NotFound)
  }
}
