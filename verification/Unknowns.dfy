// ECUnknown: objects that count their users and keep their parents alive.  The set of objects that
// are not freed yet is passed along as `live`; what is not in it must not be touched any more.
module Unknowns {
  import opened Forests

  datatype Status = Success | NotFound

  ghost function State(live: set<Unknown>): (f: Forest<Unknown>)
    reads live
    ensures f.Keys == live
  {
    map o | o in live :: Node(o.count, o.children, ParentOf(o))
  }

  ghost function ParentOf(o: Unknown): Option<Unknown>
    reads o
  {
    if o.parent == null then None else var p: Unknown := o.parent; Some(p)
  }

  class Unknown {
    var count: nat
    var children: seq<Unknown>
    var parent: Unknown?

    constructor ()
      ensures count == 0 && children == [] && parent == null
    {
      count, children, parent := 0, [], null;
    }

    // A new object in the hands of its first user.
    static method Create(ghost live: set<Unknown>) returns (o: Unknown, ghost more: set<Unknown>)
      ensures fresh(o) && more == live + {o} && State(more) == Created(old(State(live)), o)
    {
      o := new Unknown();
      more := live + {o};
      var _ := o.AddRef(more);
    }

    method AddRef(ghost live: set<Unknown>) returns (n: nat)
      requires this in live
      modifies this`count
      ensures State(live) == Referenced(old(State(live)), this) && n == count == old(count) + 1
    {
      ghost var f := State(live);
      count := count + 1;
      assert State(live) == f[this := f[this].(count := f[this].count + 1)];
      n := count;
    }

    method Release(ghost live: set<Unknown>) returns (n: nat, ghost left: set<Unknown>)
      requires this in live && count > 0 && Upward(State(live))
      modifies live
      ensures left <= live && State(left) == Released(old(State(live)), this)
      ensures n == old(count) - 1
    {
      ghost var f := State(live);
      count := count - 1;
      n := count;
      left := live;
      assert State(live) == f[this := f[this].(count := f[this].count - 1)];
      if n != 0 {
        return;
      }
      var lastRef := children == [];
      if lastRef {
        left := Suicide(live);
      }
    }

    method AddChild(child: Unknown?, ghost live: set<Unknown>)
      requires this in live && (child != null ==> child in live && child != this && child.parent == null)
      modifies this`children, (if child == null then {} else {child})`parent
      ensures State(live) == if child == null then old(State(live)) else Adopted(old(State(live)), this, child)
      ensures child != null ==> children == old(children) + [child] && child.parent == this
    {
      if child == null {
        return;
      }
      ghost var f := State(live);
      children := children + [child];
      child.SetParent(this);
      assert State(live) == Adopted(f, this, child);
    }

    method SetParent(parent: Unknown)
      requires this.parent == null
      modifies this`parent
      ensures this.parent == parent
    {
      this.parent := parent;
    }

    // The child is gone already; only its address is compared.
    method RemoveChild(child: Unknown, ghost live: set<Unknown>) returns (er: Status, ghost left: set<Unknown>)
      requires this in live && child !in live && Upward(State(live))
      modifies live
      ensures left <= live && State(left) == Abandoned(old(State(live)), this, child)
      ensures er == if child in old(children) then Success else NotFound
      decreases |live|, 2
    {
      ghost var f := State(live);
      left := live;
      if child !in children {
        return NotFound, left;
      }
      WithoutKeeps(children, child);
      children := Without(children, child);
      var lastRef := children == [] && count == 0;
      WithoutChildUpward(f, this, child, children);
      assert State(live) == f[this := f[this].(children := children)];
      if lastRef {
        left := Suicide(live);
      }
      er := Success;
    }

    // Nobody holds on to this object: free it, then tell its parent.
    method Suicide(ghost live: set<Unknown>) returns (ghost left: set<Unknown>)
      requires this in live && children == [] && Upward(State(live))
      modifies live
      ensures left <= live && State(left) == Destroyed(old(State(live)), this)
      decreases |live|, 1
    {
      ghost var f := State(live);
      WithoutObjectUpward(f, this);
      var above := parent;
      parent := null;
      left := live - {this};
      assert State(left) == f - {this};
      assert live == left + {this};
      if above != null {
        var er;
        er, left := above.RemoveChild(this, left);
      }
    }

    // Walk up from the other object.
    method IsParentOf(other: Unknown?, ghost live: set<Unknown>, ghost rank: map<Unknown, nat>) returns (yes: bool)
      requires this in live && (other != null ==> other in live) && IsForest(State(live), rank)
      ensures yes == (other != null && Forests.IsParentOf(State(live), rank, this, other))
    {
      var o := other;
      while o != null && o.parent != null
        invariant o != null ==> o in live
        invariant o == null <==> other == null
        invariant o != null ==>
                    (Forests.IsParentOf(State(live), rank, this, other)
                     <==> Forests.IsParentOf(State(live), rank, this, o))
        decreases if o == null then 0 else rank[o]
      {
        if o.parent == this {
          return true;
        }
        o := o.parent;
      }
      yes := false;
    }

    // Search everything below the other object.
    method IsChildOf(other: Unknown?, ghost live: set<Unknown>, ghost rank: map<Unknown, nat>) returns (yes: bool)
      requires this in live && (other != null ==> other in live) && IsForest(State(live), rank)
      ensures yes == (other != null && Forests.IsParentOf(State(live), rank, other, this))
      decreases if other == null then {} else Higher(State(live), rank, other) + {other}
    {
      if other == null {
        return false;
      }
      ghost var f := State(live);
      AncestryAgrees(f, rank, other, this);
      for i := 0 to |other.children|
        invariant forall k :: 0 <= k < i ==>
                    this != other.children[k] && !Forests.IsChildOf(f, rank, this, other.children[k])
      {
        var p := other.children[i];
        HigherChild(f, rank, other, p);
        if this == p {
          return true;
        }
        AncestryAgrees(f, rank, p, this);
        var below := IsChildOf(p, live, rank);
        if below {
          return true;
        }
      }
      yes := false;
    }
  }
}
