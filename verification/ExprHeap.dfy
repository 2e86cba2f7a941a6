/** The passes that overwrite expression nodes in place, proved to compute what the
    functions on expression values do. */
module ExprHeap {
  import opened Exprs
  import opened Options
  import opened EliminateYn
  import opened Transforming
  import opened ExprEq
  import opened Extracting

  datatype Kind = SymbolKind | NotKind | CompareKind(equal: bool) | BinKind(op: Op)

  /** union expr_data. */
  datatype Data = Null | Sub(node: ExprNode) | Sym(sym: Symbol)

  /** struct expr. */
  class ExprNode {
    var kind: Kind
    var left: Data
    var right: Data
    ghost var Repr: set<ExprNode>

    /** The node is the root of a tree of nodes, none of them shared. */
    ghost predicate Valid()
      reads this, Repr
      decreases Repr
    {
      && this in Repr
      && (kind == SymbolKind ==> left.Sym?)
      && (kind.CompareKind? ==> left.Sym? && right.Sym?)
      && (kind == NotKind || kind.BinKind? ==>
            && left.Sub? && left.node in Repr && left.node.Repr < Repr && this !in left.node.Repr
            && left.node.Valid())
      && (kind.BinKind? ==>
            && right.Sub? && right.node in Repr && right.node.Repr < Repr && this !in right.node.Repr
            && right.node.Valid()
            && left.node.Repr !! right.node.Repr)
    }

    ghost function Abs(): Expr
      reads this, Repr
      requires Valid()
      decreases Repr
    {
      match kind
      case SymbolKind => Ref(left.sym)
      case CompareKind(equal) => Compare(equal, left.sym, right.sym)
      case NotKind => Not(left.node.Abs())
      case BinKind(op) => Bin(op, left.node.Abs(), right.node.Abs())
    }

    /** expr_alloc_symbol. */
    constructor Symbol(s: Symbol)
      ensures Valid() && fresh(Repr) && Abs() == Ref(s)
    {
      kind, left, right := SymbolKind, Sym(s), Null;
      Repr := {this};
    }

    /** `memcpy(e, org)`, operands not yet copied. */
    constructor Duplicate(org: ExprNode)
      ensures fresh(this) && kind == org.kind && left == org.left && right == org.right && Repr == {this}
      ensures org.Valid() && (kind == SymbolKind || kind.CompareKind?) ==> Valid() && Abs() == org.Abs()
    {
      kind, left, right := org.kind, org.left, org.right;
      Repr := {this};
    }

    /** expr_alloc_one, for negations. */
    constructor Negation(e: ExprNode)
      requires e.Valid()
      ensures Valid() && fresh(this) && Repr == {this} + e.Repr && Abs() == Not(e.Abs())
      ensures kind == NotKind && left == Sub(e)
    {
      kind, left, right := NotKind, Sub(e), Null;
      Repr := {this} + e.Repr;
    }

    /** expr_alloc_two. */
    constructor Two(op: Op, l: ExprNode, r: ExprNode)
      requires Slots(l, r)
      ensures Valid() && fresh(this) && Repr == {this} + l.Repr + r.Repr && Abs() == Bin(op, l.Abs(), r.Abs())
    {
      kind, left, right := BinKind(op), Sub(l), Sub(r);
      Repr := {this} + l.Repr + r.Repr;
    }
  }

  /** Two trees in two slots, nothing shared between them. */
  ghost predicate Slots(a: ExprNode, b: ExprNode)
    reads a, a.Repr, b, b.Repr
  {
    a.Valid() && b.Valid() && a.Repr !! b.Repr
  }

  /** One level of the tree. */
  lemma Self(e: ExprNode)
    requires e.Valid()
    ensures e in e.Repr
    ensures e.kind == SymbolKind ==> e.left.Sym? && e.Abs() == Ref(e.left.sym)
    ensures e.kind.CompareKind? ==> e.left.Sym? && e.right.Sym? && e.Abs() == Compare(e.kind.equal, e.left.sym, e.right.sym)
    ensures e.kind == NotKind ==>
              && e.left.Sub? && e.left.node.Valid() && e.Abs() == Not(e.left.node.Abs())
              && e.left.node.Repr < e.Repr && e !in e.left.node.Repr
    ensures e.kind.BinKind? <==> e.Abs().Bin?
    ensures e.kind.BinKind? ==> e.Abs().op == e.kind.op
  {
  }

  lemma Operands(e: ExprNode)
    requires e.Valid() && e.kind.BinKind?
    ensures e.left.Sub? && e.right.Sub? && Slots(e.left.node, e.right.node)
    ensures e.left.node in e.left.node.Repr && e.left.node.Repr < e.Repr && e !in e.left.node.Repr
    ensures e.right.node in e.right.node.Repr && e.right.node.Repr < e.Repr && e !in e.right.node.Repr
    ensures e in e.Repr && e.Abs() == Bin(e.kind.op, e.left.node.Abs(), e.right.node.Abs())
  {
  }

  /** `*e = *x`, where `x` is a node below `e`. */
  method Become(e: ExprNode, x: ExprNode)
    requires x.Valid() && e !in x.Repr
    modifies e
    ensures e.Valid() && e.Repr == x.Repr - {x} + {e} && e.Abs() == old(x.Abs())
  {
    ghost var was := x.Abs();
    e.kind, e.left, e.right := x.kind, x.left, x.right;
    e.Repr := x.Repr - {x} + {e};
  }

  /** `e->type = E_SYMBOL; e->left.sym = s`. */
  method BecomeSymbol(e: ExprNode, s: Symbol)
    modifies e
    ensures e.Valid() && e.Repr == {e} && e.Abs() == Ref(s)
  {
    e.kind, e.left, e.right := SymbolKind, Sym(s), Null;
    e.Repr := {e};
  }

  /** Both operands of an E_AND or E_OR. */
  method SetOperands(e: ExprNode, l: ExprNode, r: ExprNode)
    requires e.kind.BinKind? && Slots(l, r) && e !in l.Repr && e !in r.Repr
    modifies e
    ensures e.Valid() && e.Repr == {e} + l.Repr + r.Repr && e.kind == old(e.kind)
    ensures e.Abs() == Bin(e.kind.op, old(l.Abs()), old(r.Abs()))
  {
    ghost var x, y := l.Abs(), r.Abs();
    e.left, e.right := Sub(l), Sub(r);
    e.Repr := {e} + l.Repr + r.Repr;
  }

  /** The operand of an E_NOT. */
  method SetOperand(e: ExprNode, l: ExprNode)
    requires e.kind == NotKind && l.Valid() && e !in l.Repr
    modifies e
    ensures e.Valid() && e.Repr == {e} + l.Repr && e.kind == NotKind && e.left == Sub(l) && e.Abs() == Not(old(l.Abs()))
  {
    ghost var x := l.Abs();
    e.left := Sub(l);
    e.Repr := {e} + l.Repr;
  }

  /** expr_eliminate_yn. */
  method EliminateYnNode(e: ExprNode)
    requires e.Valid()
    modifies e.Repr
    ensures e.Valid() && e.Repr <= old(e.Repr) && e.Abs() == Yn(old(e.Abs()))
    decreases e.Repr, 1
  {
    if e.kind.BinKind? {
      var op := e.kind.op;
      EliminateYnOperands(e);
      var l, r := e.left.node, e.right.node;
      if l.kind == SymbolKind && l.left.sym == Zero(op) {
        BecomeSymbol(e, Zero(op));
      } else if l.kind == SymbolKind && l.left.sym == Unit(op) {
        Become(e, r);
      } else if r.kind == SymbolKind && r.left.sym == Zero(op) {
        BecomeSymbol(e, Zero(op));
      } else if r.kind == SymbolKind && r.left.sym == Unit(op) {
        Become(e, l);
      }
    }
  }

  method EliminateYnOperands(e: ExprNode)
    requires e.Valid() && e.kind.BinKind?
    modifies e.Repr - {e}
    ensures e.Valid() && e.Repr == old(e.Repr) && e.kind == old(e.kind)
    ensures e.Abs() == Bin(e.kind.op, Yn(old(e.left.node.Abs())), Yn(old(e.right.node.Abs())))
    decreases e.Repr, 0
  {
    hide Yn;
    var l, r := e.left.node, e.right.node;
    EliminateYnNode(l);
    EliminateYnNode(r);
  }

  /** expr_trans_bool. */
  method TransBoolNode(e: ExprNode)
    requires e.Valid()
    modifies e.Repr
    ensures e.Valid() && e.Repr <= old(e.Repr) && e.Abs() == TransBool(old(e.Abs()))
    decreases e.Repr
  {
    match e.kind
    case SymbolKind =>
    case NotKind => TransBoolNode(e.left.node);
    case BinKind(_) =>
      var l, r := e.left.node, e.right.node;
      TransBoolNode(l);
      TransBoolNode(r);
    case CompareKind(equal) =>
      if !equal && e.left.sym.Type() == Tri && e.right.sym == No {
        e.kind, e.right := SymbolKind, Null;
        e.Repr := {e};
      }
  }

  /** expr_transform: the result may be another node of the tree. */
  method TransformNode(e: ExprNode) returns (r: ExprNode)
    requires e.Valid()
    modifies e.Repr
    ensures r.Valid() && fresh(r.Repr - old(e.Repr)) && r.Abs() == Transform(old(e.Abs()))
    decreases Weight(e.Abs()), 2
  {
    r := e;
    match e.kind
    case SymbolKind =>
    case CompareKind(_) => TransformComparison(e);
    case BinKind(_) => TransformOperands(e);
    case NotKind =>
      TransformOperand(e);
      r := TransformNegation(e);
  }

  /** The second switch of expr_transform on E_EQUAL and E_UNEQUAL. */
  method TransformComparison(e: ExprNode)
    requires e.Valid() && e.kind.CompareKind?
    modifies e
    ensures e.Valid() && fresh(e.Repr - old(e.Repr)) && e.Abs() == TransformCompare(old(e.Abs()))
  {
    var s, c := e.left.sym, e.right.sym;
    if s.Type() != Boolean || !IsYmn(c) {
    } else if c == Mod {
      BecomeSymbol(e, if e.kind.equal then No else Yes);
    } else if e.kind.equal == (c == Yes) {
      BecomeSymbol(e, s);
    } else {
      var n := new ExprNode.Symbol(s);
      e.kind, e.left, e.right := NotKind, Sub(n), Null;
      e.Repr := {e} + n.Repr;
    }
  }

  method TransformOperands(e: ExprNode)
    requires e.Valid() && e.kind.BinKind?
    modifies e.Repr
    ensures e.Valid() && fresh(e.Repr - old(e.Repr))
    ensures e.Abs() == Bin(old(e.kind.op), Transform(old(e.left.node.Abs())), Transform(old(e.right.node.Abs())))
    decreases Weight(e.Abs()), 1
  {
    hide Transform;
    var l := TransformNode(e.left.node);
    var r := TransformNode(e.right.node);
    SetOperands(e, l, r);
  }

  method TransformOperand(e: ExprNode)
    requires e.Valid() && e.kind == NotKind
    modifies e.Repr
    ensures e.Valid() && fresh(e.Repr - old(e.Repr)) && e.kind == NotKind
    ensures e.Abs() == Not(Transform(old(e.left.node.Abs())))
    decreases Weight(e.Abs()), 1
  {
    hide Transform;
    var l := TransformNode(e.left.node);
    SetOperand(e, l);
  }

  /** The second switch of expr_transform on E_NOT, the operand being transformed. */
  method TransformNegation(e: ExprNode) returns (r: ExprNode)
    requires e.Valid() && e.kind == NotKind
    modifies e.Repr
    ensures r.Valid() && fresh(r.Repr - old(e.Repr))
    ensures r.Abs() == Negated(old(e.left.node.Abs()))
    decreases Weight(e.Abs()), 1
  {
    hide Transform;
    r := e;
    var tmp := e.left.node;
    match tmp.kind
    case NotKind =>
      assert Weight(e.Abs()) == 2 * Weight(tmp.Abs());
      r := TransformNode(tmp.left.node);
    case CompareKind(equal) =>
      tmp.kind := CompareKind(!equal);
      r := tmp;
    case BinKind(op) =>
      PushedWeight(op, tmp.left.node.Abs(), tmp.right.node.Abs());
      Distribute(e);
      r := TransformNode(e);
    case SymbolKind =>
      if IsYmn(tmp.left.sym) {
        tmp.left := Sym(NotConst(tmp.left.sym));
        r := tmp;
      }
  }

  /** What expr_transform makes of the negation of a transformed expression. */
  function Negated(x: Expr): Expr {
    match x
    case Not(y) => Transform(y)
    case Compare(equal, a, b) => Compare(!equal, a, b)
    case Bin(op, l, r) => Transform(Pushed(op, l, r))
    case Ref(s) => if IsYmn(s) then Ref(NotConst(s)) else Not(Ref(s))
  }

  /** De Morgan in place: the operand becomes the negation of its own left operand. */
  method Distribute(e: ExprNode)
    requires e.Valid() && e.kind == NotKind && e.left.node.kind.BinKind?
    modifies e.Repr
    ensures e.Valid() && fresh(e.Repr - old(e.Repr))
    ensures var x := old(e.left.node.Abs()); e.Abs() == Pushed(x.op, x.lhs, x.rhs)
  {
    hide ExprNode.Valid, ExprNode.Abs;
    Self(e);
    var tmp := e.left.node;
    Operands(tmp);
    var a, b := tmp.left.node, tmp.right.node;
    var n := new ExprNode.Negation(b);
    e.kind, e.right := BinKind(Dual(tmp.kind.op)), Sub(n);
    tmp.kind, tmp.right := NotKind, Null;
    SetOperand(tmp, a);
    SetOperands(e, tmp, n);
  }

  /** expr_copy. */
  method CopyNode(org: ExprNode) returns (e: ExprNode)
    requires org.Valid()
    ensures e.Valid() && fresh(e.Repr) && e.Abs() == org.Abs()
    decreases org.Repr
  {
    hide ExprNode.Valid, ExprNode.Abs;
    Self(org);
    e := new ExprNode.Duplicate(org);
    match org.kind
    case SymbolKind =>
    case CompareKind(_) =>
    case NotKind =>
      var l := CopyNode(org.left.node);
      SetOperand(e, l);
    case BinKind(_) =>
      Operands(org);
      var l := CopyNode(org.left.node);
      Self(l);
      var r := CopyNode(org.right.node);
      SetOperands(e, l, r);
  }

  /** __expr_eliminate_eq: takes and returns the contents of the two slots. */
  method CancelPairsNodes(op: Op, a: ExprNode, b: ExprNode) returns (x: ExprNode, y: ExprNode)
    requires Slots(a, b)
    modifies a.Repr, b.Repr
    ensures Slots(x, y) && fresh(x.Repr - old(a.Repr)) && fresh(y.Repr - old(b.Repr))
    ensures (x.Abs(), y.Abs()) == CancelPairs(op, old(a.Abs()), old(b.Abs()))
    decreases Size(a.Abs()) + Size(b.Abs()), if IsOp(op, a.Abs()) || IsOp(op, b.Abs()) then 0 else 3
  {
    hide CancelPairs, Eq;
    if a.kind == BinKind(op) {
      y := CancelPairsLeftNodes(op, a, b);
      x := a;
    } else if b.kind == BinKind(op) {
      x := CancelPairsRightNodes(op, a, b);
      y := b;
    } else {
      CancelPairsLeaf(op, a.Abs(), b.Abs());
      x, y := a, b;
      if a.kind == SymbolKind && b.kind == SymbolKind && a.left.sym == b.left.sym
         && (a.left.sym == Yes || a.left.sym == No) {
        return;
      }
      var eq := EqNodes(a, b);
      if eq {
        x := new ExprNode.Symbol(Unit(op));
        y := new ExprNode.Symbol(Unit(op));
      }
    }
  }

  /** The first tree is an `op`: its operands in turn, each against the second slot. */
  method CancelPairsLeftNodes(op: Op, a: ExprNode, b: ExprNode) returns (y: ExprNode)
    requires Slots(a, b) && a.kind == BinKind(op)
    modifies a.Repr, b.Repr
    ensures Slots(a, y) && fresh(a.Repr - old(a.Repr)) && fresh(y.Repr - old(b.Repr))
    ensures (a.Abs(), y.Abs()) == CancelPairs(op, old(a.Abs()), old(b.Abs()))
    decreases Size(a.Abs()) + Size(b.Abs()), 0, 0
  {
    hide CancelPairs, Eq, ExprNode.Valid, ExprNode.Abs;
    Operands(a);
    CancelPairsLeft(op, a.Abs(), b.Abs());
    var l, r := a.left.node, a.right.node;
    l, y := CancelPairsNodes(op, l, b);
    Self(l);
    ghost var lr, le := l.Repr, l.Abs();
    assert lr !! r.Repr && r.Repr !! y.Repr;
    r, y := CancelPairsNodes(op, r, y);
    assert l.Repr == lr && l.Valid() && l.Abs() == le;
    assert lr !! r.Repr && lr !! y.Repr;
    Self(r);
    Self(y);
    SetOperands(a, l, r);
  }

  /** The second tree is an `op`, the first is not. */
  method CancelPairsRightNodes(op: Op, a: ExprNode, b: ExprNode) returns (x: ExprNode)
    requires Slots(a, b) && a.kind != BinKind(op) && b.kind == BinKind(op)
    modifies a.Repr, b.Repr
    ensures Slots(x, b) && fresh(x.Repr - old(a.Repr)) && fresh(b.Repr - old(b.Repr))
    ensures (x.Abs(), b.Abs()) == CancelPairs(op, old(a.Abs()), old(b.Abs()))
    decreases Size(a.Abs()) + Size(b.Abs()), 0, 0
  {
    hide CancelPairs, Eq, ExprNode.Valid, ExprNode.Abs;
    Operands(b);
    Self(a);
    CancelPairsRight(op, a.Abs(), b.Abs());
    var l, r := b.left.node, b.right.node;
    x, l := CancelPairsNodes(op, a, l);
    Self(l);
    ghost var lr, le := l.Repr, l.Abs();
    assert lr !! r.Repr && r.Repr !! x.Repr;
    x, r := CancelPairsNodes(op, x, r);
    assert l.Repr == lr && l.Valid() && l.Abs() == le;
    assert lr !! r.Repr && lr !! x.Repr;
    Self(r);
    Self(x);
    SetOperands(b, l, r);
  }

  /** expr_eliminate_eq. */
  method EliminateEqNodes(a: ExprNode, b: ExprNode) returns (x: ExprNode, y: ExprNode)
    requires Slots(a, b)
    modifies a.Repr, b.Repr
    ensures Slots(x, y) && fresh(x.Repr - old(a.Repr)) && fresh(y.Repr - old(b.Repr))
    ensures (x.Abs(), y.Abs()) == EliminateEq(old(a.Abs()), old(b.Abs()))
    decreases Size(a.Abs()) + Size(b.Abs()), 1
  {
    hide CancelPairs, Eq, Yn, ExprNode.Valid, ExprNode.Abs;
    x, y := a, b;
    Self(x);
    Self(y);
    if x.kind.BinKind? {
      x, y := CancelPairsNodes(x.kind.op, x, y);
      Self(x);
      Self(y);
    }
    if y.kind.BinKind? && x.kind != y.kind {
      x, y := CancelPairsNodes(y.kind.op, x, y);
      Self(x);
      Self(y);
    }
    EliminateYnNode(x);
    Self(x);
    EliminateYnNode(y);
  }

  /** expr_eq, which works on copies. */
  method EqNodes(a: ExprNode, b: ExprNode) returns (res: bool)
    requires a.Valid() && b.Valid()
    ensures res == Eq(a.Abs(), b.Abs())
    decreases Size(a.Abs()) + Size(b.Abs()), 2
  {
    hide EliminateEq, ExprNode.Valid, ExprNode.Abs;
    Self(a);
    Self(b);
    if a.kind != b.kind { return false; }
    match a.kind
    case CompareKind(_) => res := a.left.sym == b.left.sym && a.right.sym == b.right.sym;
    case SymbolKind => res := a.left.sym == b.left.sym;
    case NotKind => res := EqNodes(a.left.node, b.left.node);
    case BinKind(_) =>
      var x := CopyNode(a);
      var y := CopyNode(b);
      x, y := EliminateEqNodes(x, y);
      Self(x);
      Self(y);
      res := x.kind == SymbolKind && y.kind == SymbolKind && x.left.sym == y.left.sym;
  }

  ghost function ReprOf(c: Option<ExprNode>): set<ExprNode>
    reads if c.Some? then {c.value} else {}
  {
    if c.Some? then c.value.Repr else {}
  }

  /** What has been taken out, if anything, shares no node with the two slots. */
  ghost predicate Apart(c: Option<ExprNode>, a: ExprNode, b: ExprNode)
    reads a, a.Repr, b, b.Repr, if c.Some? then {c.value} + c.value.Repr else {}
  {
    Slots(a, b) && (c.Some? ==> c.value.Valid() && c.value.Repr !! a.Repr && c.value.Repr !! b.Repr)
  }

  ghost function AbsOf(c: Option<ExprNode>): Option<Expr>
    reads if c.Some? then {c.value} + c.value.Repr else {}
    requires c.Some? ==> c.value.Valid()
  {
    if c.Some? then Some(c.value.Abs()) else None
  }

  /** expr_extract_eq: `c` is what `ep` points to. */
  method ExtractEqNodes(op: Op, c: Option<ExprNode>, a: ExprNode, b: ExprNode)
    returns (d: Option<ExprNode>, x: ExprNode, y: ExprNode)
    requires Apart(c, a, b)
    modifies a.Repr, b.Repr
    ensures Apart(d, x, y) && fresh(x.Repr - old(a.Repr)) && fresh(y.Repr - old(b.Repr))
    ensures fresh(ReprOf(d) - old(ReprOf(c)) - old(a.Repr))
    ensures (AbsOf(d), x.Abs(), y.Abs()) == ExtractEq(op, old(AbsOf(c)), old(a.Abs()), old(b.Abs()))
    decreases Size(a.Abs()) + Size(b.Abs()), 1
  {
    hide ExtractEq, Eq, ExprNode.Valid, ExprNode.Abs;
    Self(a);
    Self(b);
    if a.kind == BinKind(op) {
      d, y := ExtractEqLeftNodes(op, c, a, b);
      x := a;
    } else if b.kind == BinKind(op) {
      d, x := ExtractEqRightNodes(op, c, a, b);
      y := b;
    } else {
      ExtractEqLeaf(op, AbsOf(c), a.Abs(), b.Abs());
      d, x, y := c, a, b;
      var eq := EqNodes(a, b);
      if eq {
        if c.None? {
          d := Some(a);
        } else {
          var t := new ExprNode.Two(op, c.value, a);
          d := Some(t);
        }
        x := new ExprNode.Symbol(Unit(op));
        y := new ExprNode.Symbol(Unit(op));
      }
    }
  }

  method ExtractEqLeftNodes(op: Op, c: Option<ExprNode>, a: ExprNode, b: ExprNode) returns (d: Option<ExprNode>, y: ExprNode)
    requires Apart(c, a, b) && a.kind == BinKind(op)
    modifies a.Repr, b.Repr
    ensures Apart(d, a, y) && fresh(a.Repr - old(a.Repr)) && fresh(y.Repr - old(b.Repr))
    ensures fresh(ReprOf(d) - old(ReprOf(c)) - old(a.Repr))
    ensures (AbsOf(d), a.Abs(), y.Abs()) == ExtractEq(op, old(AbsOf(c)), old(a.Abs()), old(b.Abs()))
    decreases Size(a.Abs()) + Size(b.Abs()), 0, 1
  {
    hide ExtractEq, Eq, ExprNode.Valid, ExprNode.Abs, AbsOf;
    Operands(a);
    Self(b);
    ExtractEqLeft(op, AbsOf(c), a.Abs(), b.Abs());
    var l, r;
    d, l, r, y := ExtractFirstOperands(op, c, a.left.node, a.right.node, b);
    Rejoin(d, y, a, l, r);
  }

  /** Puts the operands back where they came from. */
  method Rejoin(d: Option<ExprNode>, x: ExprNode, e: ExprNode, l: ExprNode, r: ExprNode)
    requires e.kind.BinKind? && Apart(d, x, l) && Apart(d, x, r) && l.Repr !! r.Repr
    requires e !in x.Repr + l.Repr + r.Repr + ReprOf(d)
    modifies e
    ensures Apart(d, x, e) && Apart(d, e, x) && e.Repr == {e} + l.Repr + r.Repr
    ensures x.Repr == old(x.Repr) && ReprOf(d) == old(ReprOf(d))
    ensures e.Abs() == Bin(old(e.kind.op), old(l.Abs()), old(r.Abs()))
    ensures AbsOf(d) == old(AbsOf(d)) && x.Abs() == old(x.Abs())
  {
    hide ExprNode.Valid, ExprNode.Abs;
    SelfOf(d);
    Self(x);
    Self(l);
    Self(r);
    SetOperands(e, l, r);
  }

  /** The operands of the first tree in turn, each against the second slot. */
  method ExtractFirstOperands(op: Op, c: Option<ExprNode>, l: ExprNode, r: ExprNode, b: ExprNode)
    returns (d: Option<ExprNode>, l': ExprNode, r': ExprNode, y: ExprNode)
    requires Apart(c, l, b) && Apart(c, r, b) && l.Repr !! r.Repr
    modifies l.Repr, r.Repr, b.Repr
    ensures Apart(d, y, l') && Apart(d, y, r') && l'.Repr !! r'.Repr
    ensures fresh(l'.Repr - old(l.Repr)) && fresh(r'.Repr - old(r.Repr)) && fresh(y.Repr - old(b.Repr))
    ensures fresh(ReprOf(d) - old(ReprOf(c)) - old(l.Repr) - old(r.Repr))
    ensures var (c1, l1, b1) := ExtractEq(op, old(AbsOf(c)), old(l.Abs()), old(b.Abs()));
            l'.Abs() == l1 && (AbsOf(d), r'.Abs(), y.Abs()) == ExtractEq(op, c1, old(r.Abs()), b1)
    decreases 1 + Size(l.Abs()) + Size(r.Abs()) + Size(b.Abs()), 0, 0
  {
    hide ExtractEq, Eq, ExprNode.Valid, ExprNode.Abs, AbsOf;
    Self(r);
    d, l', y := ExtractEqNodes(op, c, l, b);
    Self(l');
    ghost var lr, le := l'.Repr, l'.Abs();
    assert lr !! r.Repr && r.Repr !! y.Repr;
    d, r', y := ExtractEqNodes(op, d, r, y);
    assert l'.Repr == lr && l'.Valid() && l'.Abs() == le;
    assert lr !! r'.Repr && lr !! y.Repr && lr !! ReprOf(d);
  }

  method ExtractEqRightNodes(op: Op, c: Option<ExprNode>, a: ExprNode, b: ExprNode) returns (d: Option<ExprNode>, x: ExprNode)
    requires Apart(c, a, b) && a.kind != BinKind(op) && b.kind == BinKind(op)
    modifies a.Repr, b.Repr
    ensures Apart(d, x, b) && fresh(x.Repr - old(a.Repr)) && fresh(b.Repr - old(b.Repr))
    ensures fresh(ReprOf(d) - old(ReprOf(c)) - old(a.Repr))
    ensures (AbsOf(d), x.Abs(), b.Abs()) == ExtractEq(op, old(AbsOf(c)), old(a.Abs()), old(b.Abs()))
    decreases Size(a.Abs()) + Size(b.Abs()), 0, 1
  {
    hide ExtractEq, Eq, ExprNode.Valid, ExprNode.Abs, AbsOf;
    Operands(b);
    Self(a);
    ExtractEqRight(op, AbsOf(c), a.Abs(), b.Abs());
    var l, r;
    d, x, l, r := ExtractSecondOperands(op, c, a, b.left.node, b.right.node);
    Rejoin(d, x, b, l, r);
  }

  /** The operands of the second tree in turn, each against the first slot. */
  method ExtractSecondOperands(op: Op, c: Option<ExprNode>, a: ExprNode, l: ExprNode, r: ExprNode)
    returns (d: Option<ExprNode>, x: ExprNode, l': ExprNode, r': ExprNode)
    requires Apart(c, a, l) && Apart(c, a, r) && l.Repr !! r.Repr
    modifies a.Repr, l.Repr, r.Repr
    ensures Apart(d, x, l') && Apart(d, x, r') && l'.Repr !! r'.Repr
    ensures fresh(l'.Repr - old(l.Repr)) && fresh(r'.Repr - old(r.Repr)) && fresh(x.Repr - old(a.Repr))
    ensures fresh(ReprOf(d) - old(ReprOf(c)) - old(a.Repr))
    ensures var (c1, a1, l1) := ExtractEq(op, old(AbsOf(c)), old(a.Abs()), old(l.Abs()));
            l'.Abs() == l1 && (AbsOf(d), x.Abs(), r'.Abs()) == ExtractEq(op, c1, a1, old(r.Abs()))
    decreases 1 + Size(a.Abs()) + Size(l.Abs()) + Size(r.Abs()), 0, 0
  {
    hide ExtractEq, Eq, ExprNode.Valid, ExprNode.Abs, AbsOf;
    Self(r);
    d, x, l' := ExtractEqNodes(op, c, a, l);
    Self(l');
    ghost var lr, le := l'.Repr, l'.Abs();
    assert lr !! r.Repr && r.Repr !! x.Repr;
    d, x, r' := ExtractEqNodes(op, d, x, r);
    assert l'.Repr == lr && l'.Valid() && l'.Abs() == le;
    assert lr !! r'.Repr && lr !! x.Repr && lr !! ReprOf(d);
  }

  lemma SelfOf(c: Option<ExprNode>)
    requires c.Some? ==> c.value.Valid()
    ensures c.Some? ==> c.value in ReprOf(c)
  {
  }

  lemma ExtractEqLeaf(op: Op, common: Option<Expr>, a: Expr, b: Expr)
    requires !IsOp(op, a) && !IsOp(op, b)
    ensures ExtractEq(op, common, a, b) ==
            if Eq(a, b) then (Some(if common.Some? then Bin(op, common.value, a) else a), Ref(Unit(op)), Ref(Unit(op)))
            else (common, a, b)
  {
  }

  /** expr_extract_eq_and and expr_extract_eq_or. */
  method ExtractNodes(op: Op, a: ExprNode, b: ExprNode) returns (d: Option<ExprNode>, x: ExprNode, y: ExprNode)
    requires Slots(a, b)
    modifies a.Repr, b.Repr
    ensures Apart(d, x, y) && (AbsOf(d), x.Abs(), y.Abs()) == Extract(op, old(a.Abs()), old(b.Abs()))
  {
    hide ExtractEq, Yn, ExprNode.Valid, ExprNode.Abs;
    d, x, y := ExtractEqNodes(op, None, a, b);
    if d.Some? {
      Self(d.value);
      Self(y);
      EliminateYnNode(x);
      Self(x);
      EliminateYnNode(y);
    }
  }
}
