/** Utils.descriptorString: the field descriptor of a Java type (JVMS 4.3.2),
    from the Class object's shape. */
module Descriptors {
  import opened Wrappers
  import opened JavaStrings

  /** The primitive Class objects, void included (void.class.isPrimitive()). */
  datatype Primitive = Byte | Char | Double | Float | Int | Long | Short | Boolean | Void

  /** A Class object as descriptorString inspects it: primitive, an array of
      a component type, or a class or interface with its binary name. */
  datatype JavaType =
    | PrimitiveType(p: Primitive)
    | ArrayType(component: JavaType)
    | ClassType(name: string)

  /** getPrimitiveDescriptor(c): the JVMS base-type letter; void has none
      and throws IllegalArgumentException. */
  function PrimitiveDescriptor(p: Primitive): (r: Result<string>)
    ensures r.Err? <==> p == Void
    ensures r.Ok? ==> |r.value| == 1 && r.value[0] in "BCDFIJSZ"
  {
    match p
    case Byte => Ok("B")
    case Char => Ok("C")
    case Double => Ok("D")
    case Float => Ok("F")
    case Int => Ok("I")
    case Long => Ok("J")
    case Short => Ok("S")
    case Boolean => Ok("Z")
    case Void => Err(IllegalArgument)
  }

  /** descriptorString(c): it throws IllegalArgumentException exactly for
      void and arrays of void, and a descriptor starts with '[' exactly for
      an array type. */
  function DescriptorString(t: JavaType): (r: Result<string>)
    ensures r.Err? <==> ElementType(t) == PrimitiveType(Void)
    ensures r.Err? ==> r.error == IllegalArgument
    ensures r.Ok? ==> |r.value| > 0 && (r.value[0] == '[' <==> t.ArrayType?)
  {
    match t
    case PrimitiveType(p) => PrimitiveDescriptor(p)
    case ArrayType(c) =>
      var d :- DescriptorString(c);
      Ok("[" + d)
    case ClassType(name) => Ok("L" + ReplaceChar(name, '.', '/') + ";")
  }

  /** Array dimensions, and the type under them. */
  function Dimension(t: JavaType): nat
  {
    if t.ArrayType? then 1 + Dimension(t.component) else 0
  }

  function ElementType(t: JavaType): (e: JavaType)
    ensures !e.ArrayType?
  {
    if t.ArrayType? then ElementType(t.component) else t
  }

  function Repeat(c: char, n: nat): (r: string)
    ensures |r| == n && forall i :: 0 <= i < n ==> r[i] == c
  {
    if n == 0 then [] else [c] + Repeat(c, n - 1)
  }

  /** A class type's descriptor: 'L', the name with every '.' made '/',
      then ';'; two chars longer than the name and free of '.'. */
  lemma ClassDescriptor(name: string)
    ensures DescriptorString(ClassType(name)).Ok?
    ensures var d := DescriptorString(ClassType(name)).value;
      && |d| == |name| + 2
      && d[0] == 'L' && d[|d| - 1] == ';'
      && d[1..|d| - 1] == ReplaceChar(name, '.', '/')
      && forall i :: 0 <= i < |d| ==> d[i] != '.'
  {
    var d := DescriptorString(ClassType(name)).value;
    assert d[1..|d| - 1] == ReplaceChar(name, '.', '/');
    forall i | 0 <= i < |d| ensures d[i] != '.' {
      if 0 < i < |d| - 1 {
        assert d[i] == ReplaceChar(name, '.', '/')[i - 1];
      }
    }
  }

  /** An array's descriptor is one '[' per dimension, then the element
      type's descriptor, which never starts with '[': the leading '['s count
      the dimensions exactly. */
  lemma {:induction false} ArrayDescriptor(t: JavaType)
    ensures DescriptorString(t).Ok? <==> DescriptorString(ElementType(t)).Ok?
    ensures DescriptorString(t).Ok? ==>
              var d := DescriptorString(t).value;
              var e := DescriptorString(ElementType(t)).value;
              && d == Repeat('[', Dimension(t)) + e
              && |e| > 0 && e[0] != '['
  {
    match t
    case ArrayType(c) =>
      ArrayDescriptor(c);
      if DescriptorString(c).Ok? {
        var d, e := DescriptorString(c).value, DescriptorString(ElementType(t)).value;
        assert DescriptorString(t).value == "[" + d;
        assert Repeat('[', Dimension(t)) == "[" + Repeat('[', Dimension(c));
        assert "[" + (Repeat('[', Dimension(c)) + e) == "[" + Repeat('[', Dimension(c)) + e;
      }
    case PrimitiveType(p) =>
      assert Repeat('[', 0) == [];
    case ClassType(name) =>
      assert Repeat('[', 0) == [];
  }

  // ---------------------------------------------------------------------
  // Reading a descriptor back

  /** The type a field descriptor denotes, class names in internal form. */
  function ParseDescriptor(d: string): Option<JavaType>
  {
    if d == [] then None
    else if d[0] == '[' then
      var c :- ParseDescriptor(d[1..]);
      Some(ArrayType(c))
    else if d[0] == 'L' then
      if |d| >= 2 && d[|d| - 1] == ';' then Some(ClassType(d[1..|d| - 1])) else None
    else if |d| != 1 then None
    else if d == "B" then Some(PrimitiveType(Byte))
    else if d == "C" then Some(PrimitiveType(Char))
    else if d == "D" then Some(PrimitiveType(Double))
    else if d == "F" then Some(PrimitiveType(Float))
    else if d == "I" then Some(PrimitiveType(Int))
    else if d == "J" then Some(PrimitiveType(Long))
    else if d == "S" then Some(PrimitiveType(Short))
    else if d == "Z" then Some(PrimitiveType(Boolean))
    else None
  }

  /** The type with its class names in internal form ('/' for '.'). */
  function InternalForm(t: JavaType): JavaType
  {
    match t
    case PrimitiveType(p) => t
    case ArrayType(c) => ArrayType(InternalForm(c))
    case ClassType(name) => ClassType(ReplaceChar(name, '.', '/'))
  }

  /** Every descriptor descriptorString produces reads back as the type it
      describes, up to the internal form of class names. */
  lemma {:induction false} DescriptorReadsBack(t: JavaType)
    requires DescriptorString(t).Ok?
    ensures ParseDescriptor(DescriptorString(t).value) == Some(InternalForm(t))
  {
    match t
    case PrimitiveType(p) =>
    case ArrayType(c) =>
      DescriptorReadsBack(c);
      var d := DescriptorString(c).value;
      assert ("[" + d)[1..] == d;
    case ClassType(name) =>
      ClassDescriptor(name);
  }
}
