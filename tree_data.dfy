/**
 * The test navigator's tree node `TestExtensionTreeData`: a named node whose
 * children are listed, by name, under the node's own name in a property table
 * (the model). `getChildren` materialises them lazily and caches each child by
 * name, so that a name seen once always yields the same node. Nodes are equal
 * and hash alike by name alone.
 */
module NavigatorTree {
  import opened JavaTypes

  /** The model: each node name mapped to its comma-separated child list, already split. */
  type Properties = map<string, seq<string>>

  /** The `IFile` a node belongs to, kept and handed on but never looked into. */
  datatype File = File(path: string)

  /** A UTF-16 code unit: a Java `String` is a sequence of these. */
  type CodeUnit = u: int | 0 <= u < 0x1_0000

  /**
   * The UTF-16 encoding of one character: the character itself when it lies in
   * the Basic Multilingual Plane, otherwise a high and a low surrogate.
   */
  function Utf16(c: char): (r: seq<CodeUnit>)
    ensures c as int < 0x1_0000 ==> r == [c as int]
    ensures c as int >= 0x1_0000 ==>
              && |r| == 2
              && 0xD800 <= r[0] < 0xDC00 && 0xDC00 <= r[1] < 0xE000
              && 0x1_0000 + (r[0] as int - 0xD800) * 0x400 + (r[1] as int - 0xDC00) == c as int
  {
    if c as int < 0x1_0000 then [c as int]
    else
      var v := c as int - 0x1_0000;
      [0xD800 + v / 0x400, 0xDC00 + v % 0x400]
  }

  /** The code units of the Java string that holds the characters of `s`. */
  function CodeUnits(s: string): seq<CodeUnit> {
    if s == [] then [] else CodeUnits(s[..|s| - 1]) + Utf16(s[|s| - 1])
  }

  /** Powers of 31 (exact). */
  function Pow31(n: nat): int {
    if n == 0 then 1 else 31 * Pow31(n - 1)
  }

  /** The exact polynomial u[0]*31^(n-1) + ... + u[n-1], as String.hashCode documents it. */
  function HashPolynomial(u: seq<CodeUnit>): int {
    if u == [] then 0 else u[0] * Pow31(|u| - 1) + HashPolynomial(u[1..])
  }

  /** Appending a code unit multiplies the polynomial by 31 and adds the unit. */
  lemma {:induction false} HashPolynomialAppend(u: seq<CodeUnit>, c: CodeUnit)
    ensures HashPolynomial(u + [c]) == 31 * HashPolynomial(u) + c
    decreases |u|
  {
    if u == [] {
      assert [c][1..] == [];
    } else {
      assert (u + [c])[1..] == u[1..] + [c];
      HashPolynomialAppend(u[1..], c);
    }
  }

  /**
   * The loop of `String.hashCode` over code units, `h = 31 * h + c` in 32-bit
   * `int` arithmetic: the documented polynomial, reduced to an `int`.
   */
  function UnitsHash(u: seq<CodeUnit>): (r: int32)
    ensures r == Wrap32(HashPolynomial(u))
    decreases |u|
  {
    if u == [] then 0
    else
      var prefix := u[..|u| - 1];
      var c := u[|u| - 1];
      assert u == prefix + [c];
      HashPolynomialAppend(prefix, c);
      WrapMul(HashPolynomial(prefix), 31);
      WrapAdd(Wrap32(HashPolynomial(prefix)) * 31, c);
      WrapAdd(HashPolynomial(prefix) * 31, c);
      Wrap32(31 * UnitsHash(prefix) + c)
  }

  /** Java's `String.hashCode` of the string holding `s`: the polynomial of its UTF-16 code units. */
  function StringHash(s: string): (r: int32)
    ensures r == Wrap32(HashPolynomial(CodeUnits(s)))
  {
    UnitsHash(CodeUnits(s))
  }

  /** A character outside the Basic Multilingual Plane hashes as its two surrogates. */
  lemma NonBmpHash()
    ensures CodeUnits("\U{1F600}") == [0xD83D, 0xDE00]
    ensures StringHash("\U{1F600}") == 31 * 0xD83D + 0xDE00
  {
    assert "\U{1F600}"[..0] == [];
    assert CodeUnits("\U{1F600}") == [0xD83D, 0xDE00];
    assert [0xD83D, 0xDE00][1..] == [0xDE00];
    assert [0xDE00][1..] == [];
  }

  class TestExtensionTreeData {
    /** getParent(), getName() and getFile(): fixed when the node is made. */
    const parent: TestExtensionTreeData?
    const name: string
    const model: Option<Properties>
    const container: Option<File>
    /** The child cache, by name. */
    var children: map<string, TestExtensionTreeData>

    /** Every cached child is keyed by its name, has this node as parent and shares its model and file. */
    ghost predicate Valid()
      reads this
    {
      forall n :: n in children ==>
        && children[n].name == n
        && children[n].parent == this
        && children[n].model == model
        && children[n].container == container
    }

    constructor(aParent: TestExtensionTreeData?, aName: string, theModel: Option<Properties>, aFile: Option<File>)
      ensures Valid()
      ensures parent == aParent && name == aName && model == theModel && container == aFile
      ensures children == map[]
    {
      parent := aParent;
      name := aName;
      model := theModel;
      container := aFile;
      children := map[];
    }

    /** The child names the model lists for this node: none without a model or an entry. */
    function ListedNames(): seq<string> {
      if model.Some? && name in model.value then model.value[name] else []
    }

    /**
     * `getChildren`: one child per listed name, taken from the cache when the
     * name is there and otherwise made fresh (this node as parent, same model
     * and file) and cached. The cache keeps every entry it had.
     */
    method GetChildren() returns (updatedChildren: set<TestExtensionTreeData>)
      requires Valid()
      modifies this
      ensures Valid()
      ensures forall n :: n in old(children) ==> n in children && children[n] == old(children)[n]
      ensures children.Keys == old(children).Keys + (set n | n in ListedNames())
      ensures forall n :: n in children && n !in old(children) ==> fresh(children[n]) && children[n].children == map[]
      ensures updatedChildren == set n | n in ListedNames() && n in children :: children[n]
    {
      updatedChildren := {};
      if model.Some? {
        if name in model.value {
          var childrenElements := model.value[name];
          for i := 0 to |childrenElements|
            invariant Valid()
            invariant forall n :: n in old(children) ==> n in children && children[n] == old(children)[n]
            invariant children.Keys == old(children).Keys + (set n | n in childrenElements[..i])
            invariant forall n :: n in children && n !in old(children) ==> fresh(children[n]) && children[n].children == map[]
            invariant updatedChildren == set n | n in childrenElements[..i] && n in children :: children[n]
          {
            var element := childrenElements[i];
            assert childrenElements[..i + 1] == childrenElements[..i] + [element];
            if element in children {
              updatedChildren := updatedChildren + {children[element]};
            } else {
              var newChild := new TestExtensionTreeData(this, element, model, container);
              children := children[newChild.name := newChild];
              updatedChildren := updatedChildren + {newChild};
            }
          }
          assert childrenElements[..|childrenElements|] == childrenElements;
        }
      }
    }

    /**
     * `equals`: the other object is a tree node with the same name. So it never
     * holds for null or for another class, always holds for the node itself,
     * and equal nodes hash alike.
     */
    function Equals(obj: object?): (r: bool)
      ensures r ==> obj != null && obj is TestExtensionTreeData
      ensures r ==> (obj as TestExtensionTreeData).HashCode() == HashCode()
      ensures obj == this ==> r
    {
      obj is TestExtensionTreeData && (obj as TestExtensionTreeData).name == name
    }

    /** `hashCode`: the polynomial hash of the name's code units, as an `int`. */
    function HashCode(): (r: int32)
      ensures r == Wrap32(HashPolynomial(CodeUnits(name)))
    {
      StringHash(name)
    }

    /**
     * `toString`: the name, ':', then in brackets the strings of the cached
     * children in the cache's iteration order. `fuel` bounds the depth printed.
     */
    ghost function ToString(fuel: nat): (r: string)
      reads *
      ensures |r| >= |name| + 3
      ensures r[..|name| + 2] == name + ":["
      ensures r[|r| - 1] == ']'
      decreases fuel, 0
    {
      name + ":" + "[" + (if fuel == 0 then "" else Listing(children, children.Keys, fuel - 1)) + "]"
    }
  }

  /**
   * The children of `keys` printed one after the other, in some fixed order
   * (a HashMap's iteration order is unspecified).
   */
  ghost function Listing(m: map<string, TestExtensionTreeData>, keys: set<string>, fuel: nat): string
    requires keys <= m.Keys
    reads *
    decreases fuel, |keys|
  {
    if keys == {} then ""
    else
      var k :| k in keys;
      m[k].ToString(fuel) + Listing(m, keys - {k}, fuel)
  }

  /** `t` occurs in `s` at index `i`. */
  predicate OccursAt(t: string, s: string, i: int) {
    0 <= i <= |s| - |t| && s[i..i + |t|] == t
  }

  /** `t` occurs in `s`. */
  ghost predicate IsFactor(t: string, s: string) {
    exists i :: OccursAt(t, s, i)
  }

  /** The listing shows every child of `keys`. */
  lemma {:induction false} ListingShowsEach(m: map<string, TestExtensionTreeData>, keys: set<string>, fuel: nat,
                                            n: string)
    requires keys <= m.Keys && n in keys
    ensures IsFactor(m[n].ToString(fuel), Listing(m, keys, fuel))
    decreases |keys|
  {
    var k :| k in keys && Listing(m, keys, fuel) == m[k].ToString(fuel) + Listing(m, keys - {k}, fuel);
    var head := m[k].ToString(fuel);
    var rest := Listing(m, keys - {k}, fuel);
    var t := m[n].ToString(fuel);
    if n == k {
      assert OccursAt(t, head + rest, 0) by {
        assert (head + rest)[0..|t|] == t;
      }
    } else {
      ListingShowsEach(m, keys - {k}, fuel, n);
      var i :| OccursAt(t, rest, i);
      assert OccursAt(t, head + rest, |head| + i) by {
        assert (head + rest)[|head| + i..|head| + i + |t|] == rest[i..i + |t|];
      }
    }
  }

  /** Below the depth bound the string shows the string of every cached child. */
  lemma ToStringShowsChildren(node: TestExtensionTreeData, fuel: nat, n: string)
    requires fuel > 0 && n in node.children
    ensures IsFactor(node.children[n].ToString(fuel - 1), node.ToString(fuel))
  {
    var s := node.ToString(fuel);
    var inner := Listing(node.children, node.children.Keys, fuel - 1);
    assert s == (node.name + ":[") + inner + "]";
    var t := node.children[n].ToString(fuel - 1);
    ListingShowsEach(node.children, node.children.Keys, fuel - 1, n);
    var i :| OccursAt(t, inner, i);
    var j := |node.name| + 2 + i;
    assert OccursAt(t, s, j) by {
      assert s[j..j + |t|] == inner[i..i + |t|];
    }
  }

  /** A node with an empty cache prints as name ":[]". */
  lemma LeafToString(node: TestExtensionTreeData, fuel: nat)
    requires node.children == map[]
    ensures node.ToString(fuel) == node.name + ":[]"
  {
  }

  /**
   * The children a call returns, read off the cache: exactly one per listed
   * name, each carrying that name; duplicate names give one child.
   */
  lemma OneChildPerName(cache: map<string, TestExtensionTreeData>, names: seq<string>)
    requires forall n :: n in cache ==> cache[n].name == n
    requires forall n :: n in names ==> n in cache
    ensures var result := set n | n in names && n in cache :: cache[n];
      && (forall c :: c in result ==> c.name in names)
      && (forall n :: n in names ==> exists c :: c in result && c.name == n)
      && (forall c, d :: c in result && d in result && c.name == d.name ==> c == d)
  {
    var result := set n | n in names && n in cache :: cache[n];
    forall n | n in names
      ensures exists c :: c in result && c.name == n
    {
      assert cache[n] in result;
    }
  }

  /** `equals` is an equivalence on tree nodes, and equal nodes hash alike. */
  lemma EqualsIsEquivalence(a: TestExtensionTreeData, b: TestExtensionTreeData, c: TestExtensionTreeData)
    ensures a.Equals(a)
    ensures a.Equals(b) <==> b.Equals(a)
    ensures a.Equals(b) && b.Equals(c) ==> a.Equals(c)
    ensures a.Equals(b) ==> a.HashCode() == b.HashCode()
    ensures a.Equals(b) <==> a.name == b.name
  {
  }

  /**
   * A second call creates nothing: after one call every listed name is cached,
   * so the cache stays as it is and the same children come back.
   */
  method GetChildrenTwice(node: TestExtensionTreeData) returns (first: set<TestExtensionTreeData>,
                                                              second: set<TestExtensionTreeData>)
    requires node.Valid()
    modifies node
    ensures node.Valid()
    ensures first == second
    ensures forall c :: c in first ==> c.name in node.ListedNames() && c.parent == node
  {
    first := node.GetChildren();
    ghost var cache := node.children;
    second := node.GetChildren();
    assert node.children == cache;
  }
}
