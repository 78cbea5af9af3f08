/** The node of the red-black tree of rbtree/rb_tree.hpp: a heap object whose links and
    colour the tree's operations update in place.  `null` plays the part of an empty
    `shared_ptr`. */
module RBNodes {

  datatype Color = Black | Red

  /** The fields of one node as a value: `data_`, `color_`, `left_`, `right_`, `parent_`. */
  datatype Links = Links(data: int, color: Color, left: RBNode?, right: RBNode?, parent: RBNode?)

  class RBNode {
    var data: int
    var left: RBNode?
    var right: RBNode?
    var parent: RBNode?
    var color: Color

    /** `RBNode(data)`: a new node is red and has no links yet. */
    constructor (data: int)
      ensures Fields() == Links(data, Red, null, null, null)
    {
      this.data := data;
      left, right, parent := null, null, null;
      color := Red;
    }

    function Fields(): Links
      reads this
    {
      Links(data, color, left, right, parent)
    }

    /** `get_grandparent`: the parent's parent, or null when there is no parent. */
    function GetGrandparent(): (g: RBNode?)
      reads this, parent
      ensures parent == null ==> g == null
      ensures parent != null ==> g == parent.parent
    {
      if parent == null then null else parent.parent
    }

    /** `get_uncle`: the child of the grandparent that is not the parent.  When the parent is
        one of the grandparent's two children, parent and uncle are exactly those two. */
    function GetUncle(): (u: RBNode?)
      reads this, parent, if parent != null then parent.parent else null
      ensures GetGrandparent() == null ==> u == null
      ensures GetGrandparent() != null ==> u == GetGrandparent().left || u == GetGrandparent().right
      ensures var g := GetGrandparent();
        g != null && parent in {g.left, g.right} ==> {parent, u} == {g.left, g.right}
    {
      var g := GetGrandparent();
      if g == null then null
      else if g.left == parent then g.right
      else g.left
    }

    /** `get_sibling`: the parent's other child.  When this node is one of its parent's
        children, it and its sibling are exactly those two. */
    function GetSibling(): (s: RBNode?)
      reads this, parent
      ensures parent == null ==> s == null
      ensures parent != null ==> s == parent.left || s == parent.right
      ensures parent != null && this in {parent.left, parent.right} ==>
        {this, s} == {parent.left, parent.right}
    {
      if parent == null then null
      else if parent.left == this then parent.right
      else parent.left
    }
  }
}
