/**
 * A board cell together with its value (Element.cs): an immutable record with
 * value equality and a 32-bit hash code, used as key and value of the map of
 * transitions that Core.UpdateElements and UpdateLoop.Loop build.
 */
module Elements {

  /** Row, column and value of a cell; the three fields are read-only. */
  datatype Element = Element(Row: int, Column: int, Value: int)

  /** The argument of Equals(object): null, an Element, or an object of some other type. */
  datatype Object = Null | ElementObject(element: Element) | OtherObject

  /** Equals(object): false for null and for an object whose runtime type is
      not Element; otherwise the three fields are compared. */
  function EqualsObject(self: Element, obj: Object): (b: bool)
    ensures b <==> obj == ElementObject(self)
  {
    match obj
    case Null => false
    case OtherObject => false
    case ElementObject(other) =>
      other.Column == self.Column && other.Row == self.Row && other.Value == self.Value
  }

  /** Equals(Element): the three fields are compared. */
  function EqualsElement(self: Element, other: Element): (b: bool)
    ensures b <==> self == other
  {
    self.Row == other.Row && self.Column == other.Column && self.Value == other.Value
  }

  /** Both overloads agree, and Equals is an equivalence relation. */
  lemma EqualsIsEquivalence(a: Element, b: Element, c: Element)
    ensures EqualsObject(a, ElementObject(b)) == EqualsElement(a, b)
    ensures EqualsElement(a, a)
    ensures EqualsElement(a, b) == EqualsElement(b, a)
    ensures EqualsElement(a, b) && EqualsElement(b, c) ==> EqualsElement(a, c)
  {
  }

  /** The low 32 bits of an integer, as C# keeps them in unchecked arithmetic. */
  function Bits(x: int): bv32
  {
    (x % 0x1_0000_0000) as bv32
  }

  /** One round of the hash: multiply by 397, then xor in the next field. */
  function Mix(hash: bv32, x: bv32): bv32
  {
    (hash * 397) ^ x
  }

  /** GetHashCode: hash = Row; hash = hash * 397 ^ Column; hash = hash * 397 ^ Value,
      all in wrapping 32-bit arithmetic.  The result is the hash's bit pattern. */
  function HashCode(e: Element): bv32
  {
    Mix(Mix(Bits(e.Row), Bits(e.Column)), Bits(e.Value))
  }

  /** Equal elements have equal hash codes, as Dictionary requires. */
  lemma HashAgreesWithEquals(a: Element, obj: Object)
    requires EqualsObject(a, obj)
    ensures HashCode(a) == HashCode(obj.element)
  {
  }
}
