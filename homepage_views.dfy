/** The home page's "my children" list. */
module HomepageViews {
  import opened Common
  import opened UserModels

  /** The student has a link row naming the parent. */
  predicate IsChildOf(links: seq<StudentParent>, studentId: Id, parentId: Id)
  {
    exists l :: l in links && l.studentId == studentId && l.parentId == parentId
  }

  /** `MyChildrenListView.get_queryset`: nobody for a requester who is not a parent; for a
      parent, the students with a link to them, each once. */
  function MyChildren(d: Directory, me: User): (r: seq<User>)
    ensures !me.role.Parent? ==> r == []
    ensures forall u :: u in r <==>
      me.role.Parent? && u in d.users && u.role == Student && IsChildOf(d.links, u.id, me.id)
  {
    if !me.role.Parent? then []
    else Filter(d.users, (u: User) => u.role == Student && IsChildOf(d.links, u.id, me.id))
  }

  /** `.distinct()`: with account keys unique, no child is listed twice, however many link
      rows connect the child to the parent. */
  lemma MyChildrenListsEachChildOnce(d: Directory, me: User)
    requires AccountsUnique(d.users)
    ensures var r := MyChildren(d, me);
      forall i, j :: 0 <= i < j < |r| ==> r[i].id != r[j].id
  {
    if me.role.Parent? {
      FilterKeepsPairwise(d.users, (u: User) => u.role == Student && IsChildOf(d.links, u.id, me.id),
                          (a: User, b: User) => a.id != b.id);
    }
  }
}
