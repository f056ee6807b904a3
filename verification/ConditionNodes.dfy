/** Condition trees as the objects the backend works on: SetId writes to a node in place. */
module ConditionNodes {
  import opened Wrappers
  import opened Conditions
  import opened ConditionCodec

  /** A RuleCondition object that owns its children. `own` holds the fields of the node itself. */
  class ConditionNode {
    var id: nat
    const own: Condition
    const left: ConditionNode?
    const right: ConditionNode?
    ghost const Repr: set<ConditionNode>

    constructor (id: nat, own: Condition, left: ConditionNode?, right: ConditionNode?)
      requires !own.Null? && (own.Compare? ==> own.left.Null? && own.right.Null?)
      requires !own.Compare? ==> left == null && right == null
      requires left != null ==> left.Valid()
      requires right != null ==> right.Valid()
      requires left != null && right != null ==> left.Repr !! right.Repr
      ensures Valid() && this.id == id && this.own == own && this.left == left && this.right == right
      ensures Repr == {this} + ReprOf(left) + ReprOf(right)
    {
      this.id := id;
      this.own := own;
      this.left := left;
      this.right := right;
      Repr := {this} + ReprOf(left) + ReprOf(right);
    }

    ghost predicate Valid()
      ensures Valid() ==> this in Repr
      decreases Repr
    {
      && this in Repr
      && !own.Null? && (own.Compare? ==> own.left.Null? && own.right.Null?)
      && (!own.Compare? ==> left == null && right == null)
      && (left != null ==> left.Repr <= Repr && this !in left.Repr && left.Valid())
      && (right != null ==> right.Repr <= Repr && this !in right.Repr && right.Valid())
      && (left != null && right != null ==> left.Repr !! right.Repr)
    }

    /** The tree below this node as a value. */
    ghost function Tree(): Condition
      requires Valid()
      reads Repr
      ensures !Tree().Null? && Tree().id == id
      decreases Repr
    {
      if own.Compare? then
        Compare(id, if left == null then Null else left.Tree(), if right == null then Null else right.Tree(), own.op)
      else own.WithId(id)
    }

    method SetId(newId: nat)
      modifies this`id
      ensures id == newId
    {
      id := newId;
    }

    /** RuleCondition::Clone: an equal tree of new objects. */
    method Clone() returns (copy: ConditionNode)
      requires Valid()
      ensures copy.Valid() && fresh(copy.Repr) && copy.Tree() == Tree()
      decreases Repr
    {
      var l: ConditionNode? := null;
      var r: ConditionNode? := null;
      if left != null {
        l := left.Clone();
      }
      if right != null {
        r := right.Clone();
      }
      copy := new ConditionNode(id, own, l, r);
    }
  }

  ghost function ReprOf(n: ConditionNode?): set<ConditionNode> {
    if n == null then {} else n.Repr
  }

  ghost function TreeOf(n: ConditionNode?): Condition
    requires n != null ==> n.Valid()
    reads ReprOf(n)
  {
    if n == null then Null else n.Tree()
  }

  lemma TreeIds(n: ConditionNode)
    requires n.Valid()
    ensures n.Tree().PresetIds() == ({n.id} - {0}) + TreeOf(n.left).PresetIds() + TreeOf(n.right).PresetIds()
  {
    if !n.own.Compare? {
      assert n.Tree().Ids() == {n.id};
    }
  }

  /** Registry::DeserializeCondition: the objects for a message. */
  method DeserializeNode(m: Message) returns (r: Result<ConditionNode>)
    ensures r.Ok? <==> Deserialize(m).Ok?
    ensures r.Ok? ==> r.value.Valid() && fresh(r.value.Repr) && r.value.Tree() == Deserialize(m).value
    ensures r.Err? ==> r.error == Deserialize(m).error
    decreases m, 0
  {
    if m.kind == 1 {
      if !m.data.CompareData? {
        return Err(InvalidArgument);
      }
      var op :- CompareOpFromInt(m.data.compare);
      var l :- DeserializeChildNode(m.data.leftRef);
      var r' :- DeserializeChildNode(m.data.rightRef);
      var n := new ConditionNode(m.id, Compare(0, Null, Null, op), l, r');
      return Ok(n);
    } else {
      var c :- Deserialize(m);
      var n := new ConditionNode(m.id, c, null, null);
      return Ok(n);
    }
  }

  method DeserializeChildNode(ref: Ref) returns (r: Result<ConditionNode?>)
    ensures r.Ok? <==> DeserializeChild(ref).Ok?
    ensures r.Ok? && r.value != null ==> r.value.Valid() && fresh(r.value.Repr)
    ensures r.Ok? ==> TreeOf(r.value) == DeserializeChild(ref).value
    ensures r.Err? ==> r.error == DeserializeChild(ref).error
    decreases ref, 1
  {
    match ref
    case NoRef => return Ok(null);
    case IdRef(_) => return Err(InvalidArgument);
    case Embedded(m) =>
      var n :- DeserializeNode(m);
      return Ok(n);
  }
}
