// Intrusive free lists: a head and one link field per array element, -1 for NULL. Used for pages
// (page_free_list, pp_link) and for environments (env_free_list, env_link).
module FreeList {

  // Following the links from head visits exactly the elements of list, in order, and stops: the
  // list is acyclic and has no repetition.
  ghost predicate Linked(links: seq<int>, head: int, list: seq<nat>)
    decreases |list|
  {
    if list == [] then head == -1
    else head == list[0] < |links| && list[0] !in list[1..] && Linked(links, links[head], list[1..])
  }

  // Links of elements that are not on the list do not matter.
  lemma {:induction false} LinkedFrame(links: seq<int>, links1: seq<int>, head: int, list: seq<nat>)
    requires Linked(links, head, list) && |links1| == |links|
    requires forall p :: p in list && p < |links| ==> links1[p] == links[p]
    ensures Linked(links1, head, list)
    ensures forall p :: p in list ==> p < |links|
    decreases |list|
  {
    if list != [] {
      LinkedFrame(links, links1, links[head], list[1..]);
      assert list == [list[0]] + list[1..];
    }
  }

  // Taking the head off.
  lemma Unlink(links: seq<int>, links1: seq<int>, head: int, list: seq<nat>)
    requires Linked(links, head, list) && list != [] && |links1| == |links|
    requires forall p :: p in list && p != list[0] && p < |links| ==> links1[p] == links[p]
    ensures head == list[0] < |links| && list[0] !in list[1..]
    ensures Linked(links1, links[head], list[1..])
    ensures forall p :: p in list <==> p == list[0] || p in list[1..]
  {
    assert list[0] !in list[1..] && Linked(links, links[head], list[1..]);
    hide Linked;
    assert list == [list[0]] + list[1..];
    LinkedFrame(links, links1, links[head], list[1..]);
  }

  // Putting an element in front.
  lemma Link(links: seq<int>, links1: seq<int>, head: int, list: seq<nat>, e: nat)
    requires Linked(links, head, list) && e < |links| == |links1| && e !in list
    requires links1[e] == head && forall p :: p in list && p < |links| ==> links1[p] == links[p]
    ensures Linked(links1, e, [e] + list)
  {
    LinkedFrame(links, links1, head, list);
    assert ([e] + list)[1..] == list;
  }
}
