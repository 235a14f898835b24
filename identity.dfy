/** `equals` and `hashCode` of User and Comment. Both compare by id: an object
    equals itself, never an object of another class, and another object of its
    class exactly when its own id is non-null and the same as the other's.
    Java objects are modelled by their reference (`ref`) and their contents. */
module Identity {
  import opened Wrappers
  import opened Entities

  datatype Obj =
    | UserObj(ref: nat, user: User)
    | CommentObj(ref: nat, comment: Comment)
    | OtherObj(ref: nat)

  /** The identifier column of an entity object. */
  function IdOf(o: Obj): Option<int> {
    match o
    case UserObj(_, u) => u.id
    case CommentObj(_, c) => c.id
    case OtherObj(_) => None
  }

  datatype JavaClass = UserClass | CommentClass | OtherClass

  function ClassOf(o: Obj): JavaClass {
    match o
    case UserObj(_, _) => UserClass
    case CommentObj(_, _) => CommentClass
    case OtherObj(_) => OtherClass
  }

  /** `o instanceof X` where X is the class of `self` (neither class has subclasses). */
  predicate SameClass(self: Obj, o: Obj) {
    (self.UserObj? && o.UserObj?) || (self.CommentObj? && o.CommentObj?)
  }

  /** The body shared by User.equals and Comment.equals:
      `this == o`, then `instanceof`, then `id != null && id.equals(other.id)`. */
  predicate Equals(self: Obj, o: Obj)
    requires !self.OtherObj?
  {
    if self.ref == o.ref then true
    else if !SameClass(self, o) then false
    else IdOf(self).Some? && IdOf(self) == IdOf(o)
  }

  /** Two objects that share a reference are one object. */
  predicate Coherent(a: Obj, b: Obj) {
    a.ref == b.ref ==> a == b
  }

  /** `getClass().hashCode()`: every instance of a class hashes to that class's
      identity hash, which is fixed for the run and given here as a parameter. */
  function HashCode(classHash: JavaClass -> int, self: Obj): int
    requires !self.OtherObj?
  {
    classHash(ClassOf(self))
  }

  /** Reflexive. */
  lemma {:induction false} EqualsReflexive(a: Obj)
    requires !a.OtherObj?
    ensures Equals(a, a)
  {
  }

  /** A User (or Comment) is never equal to an object of another class. */
  lemma {:induction false} NeverEqualsOtherClass(a: Obj, o: Obj)
    requires !a.OtherObj? && Coherent(a, o)
    requires !SameClass(a, o)
    ensures !Equals(a, o)
  {
  }

  /** Two distinct objects of the class are equal iff this id is non-null and equals the other's. */
  lemma {:induction false} DistinctObjectsEqualById(a: Obj, o: Obj)
    requires !a.OtherObj? && SameClass(a, o) && a.ref != o.ref
    ensures Equals(a, o) <==> IdOf(a).Some? && IdOf(a) == IdOf(o)
  {
  }

  /** An object whose id is null equals only itself. */
  lemma {:induction false} NullIdEqualsOnlyItself(a: Obj, o: Obj)
    requires !a.OtherObj? && IdOf(a).None? && Coherent(a, o)
    ensures Equals(a, o) <==> o == a
  {
  }

  /** On coherent objects, equality is symmetric and transitive: an equivalence. */
  lemma {:induction false} EqualsSymmetric(a: Obj, b: Obj)
    requires !a.OtherObj? && !b.OtherObj? && Coherent(a, b)
    ensures Equals(a, b) <==> Equals(b, a)
  {
  }

  lemma {:induction false} EqualsTransitive(a: Obj, b: Obj, c: Obj)
    requires !a.OtherObj? && !b.OtherObj? && !c.OtherObj?
    requires Coherent(a, b) && Coherent(b, c) && Coherent(a, c)
    requires Equals(a, b) && Equals(b, c)
    ensures Equals(a, c)
  {
  }

  /** A Comment never equals a User, even when their ids coincide. */
  lemma {:induction false} CommentNeverEqualsUser(ref1: nat, c: Comment, ref2: nat, u: User)
    requires ref1 != ref2
    ensures !Equals(CommentObj(ref1, c), UserObj(ref2, u))
  {
  }

  /** hashCode is the same for every instance of the class, so equal objects hash alike. */
  lemma {:induction false} HashCodeConsistent(classHash: JavaClass -> int, a: Obj, b: Obj)
    requires !a.OtherObj? && !b.OtherObj? && Coherent(a, b)
    requires Equals(a, b)
    ensures HashCode(classHash, a) == HashCode(classHash, b)
  {
  }
}
