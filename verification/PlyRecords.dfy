/** The records of a parsed header: elements and properties in singly linked lists that are appended to
    through a pointer to the last record. */
module PlyRecords {
  import opened Words
  import opened PlyHeaderSpec

  class Property {
    var next: Property?
    var name: Bytes
    var lengthType: PlyType
    var scalarType: PlyType
    var isList: bool
    /** Where in the memory block the record is. */
    const offset: nat
    /** The element whose list the property is in, and its position there. */
    ghost var owner: Element?
    ghost var place: nat

    constructor (offset: nat)
      ensures next == null && name == [] && lengthType == Int8 && scalarType == Int8 && !isList
      ensures this.offset == offset && owner == null
    {
      next, name, lengthType, scalarType, isList := null, [], Int8, Int8, false;
      this.offset, owner, place := offset, null, 0;
    }

    function Spec(): PropertySpec
      reads this
    {
      PropertySpec(name, isList, lengthType, scalarType)
    }
  }

  /** The element at a place of a list, or NULL past its end. */
  function PropertyAt(ps: seq<Property>, i: nat): Property? {
    if i < |ps| then ps[i] else null
  }

  function ElementAt(es: seq<Element>, i: nat): Element? {
    if i < |es| then es[i] else null
  }

  class Element {
    var next: Element?
    var name: Bytes
    var numTuples: nat
    var properties: Property?
    var lastProperty: Property?
    var numProperties: nat
    const offset: nat
    ghost var members: seq<Property>
    ghost var owner: object?
    ghost var place: nat

    constructor (offset: nat)
      ensures Valid() && members == [] && next == null && name == [] && numTuples == 0 && owner == null
      ensures this.offset == offset
    {
      next, name, numTuples, properties, lastProperty, numProperties := null, [], 0, null, null, 0;
      this.offset, members, owner, place := offset, [], null, 0;
    }

    /** The list starts at `properties`, runs through all members in order and ends with `lastProperty`. */
    ghost predicate Valid()
      reads this, members
    {
      && properties == PropertyAt(members, 0)
      && (members != [] ==> lastProperty == members[|members| - 1])
      && numProperties == |members|
      && (forall i :: 0 <= i < |members| ==> members[i].owner == this && members[i].place == i)
      && (forall i {:trigger members[i].next} :: 0 <= i < |members| ==> members[i].next == PropertyAt(members, i + 1))
    }

    ghost function Spec(): (e: ElementSpec)
      reads this, members
      ensures e.name == name && e.numTuples == numTuples && |e.properties| == |members|
      ensures forall i :: 0 <= i < |members| ==> e.properties[i] == members[i].Spec()
    {
      ElementSpec(name, numTuples, SpecsOf(members))
    }

    method SetNext(next: Element)
      requires Valid()
      modifies this`next
      ensures Valid() && Spec() == old(Spec()) && this.next == next
    {
      this.next := next;
    }

    ghost method Adopt(owner: object, place: nat)
      requires Valid()
      modifies this`owner, this`place
      ensures Valid() && Spec() == old(Spec()) && this.owner == owner && this.place == place
    {
      this.owner, this.place := owner, place;
    }

    /** A property goes to the end of the list. */
    method Append(property: Property)
      requires Valid() && property.owner == null && property.next == null
      modifies this`properties, this`lastProperty, this`numProperties, this`members, members, property
      ensures Valid() && members == old(members) + [property]
      ensures Spec() == old(Spec()).(properties := old(Spec()).properties + [old(property.Spec())])
    {
      hide SpecsOf;
      ghost var was := SpecsOf(members + [property]);
      Link(property);
      assert SpecsOf(members) == was;
    }

    method Link(property: Property)
      requires Valid() && property.owner == null && property.next == null
      modifies this`properties, this`lastProperty, this`numProperties, this`members, members, property
      ensures Valid() && members == old(members) + [property]
      ensures forall i :: 0 <= i < |members| ==> members[i].Spec() == old((members + [property])[i].Spec())
    {
      assert forall i :: 0 <= i < |members| ==> members[i] != property;
      property.owner, property.place := this, |members|;
      if properties != null {
        lastProperty.next := property;
      } else {
        properties := property;
      }
      lastProperty := property;
      numProperties := numProperties + 1;
      members := members + [property];
    }

    /** ply_element_get_property */
    method GetProperty(index: nat) returns (property: Property?)
      requires Valid()
      ensures property == PropertyAt(members, index)
    {
      property := properties;
      for i := 0 to index
        invariant property == PropertyAt(members, i)
      {
        if property == null {
          return null;
        }
        property := property.next;
      }
    }

    /** ply_element_get_property_by_name: the first one of that name. */
    method GetPropertyByName(name: Bytes) returns (property: Property?)
      requires Valid()
      ensures property == null ==> forall i :: 0 <= i < |members| ==> members[i].name != name
      ensures property != null ==>
              exists i :: 0 <= i < |members| && property == members[i] && members[i].name == name &&
                forall j :: 0 <= j < i ==> members[j].name != name
    {
      property := properties;
      ghost var i := 0;
      while property != null
        invariant i <= |members| && property == PropertyAt(members, i)
        invariant forall j :: 0 <= j < i ==> members[j].name != name
        decreases |members| - i
      {
        if property.name == name {
          return;
        }
        property := property.next;
        i := i + 1;
      }
    }
  }

  ghost function SpecsOf(ps: seq<Property>): (specs: seq<PropertySpec>)
    reads ps
    ensures |specs| == |ps| && forall i :: 0 <= i < |ps| ==> specs[i] == ps[i].Spec()
  {
    if ps == [] then [] else SpecsOf(ps[..|ps| - 1]) + [ps[|ps| - 1].Spec()]
  }

  lemma Apart(e: Element, f: Element, property: Property)
    requires e.Valid() && f.Valid() && e != f && property.owner == null
    ensures ClearOf(e, f, property)
  {}

  /** None of an element's properties is another's, or this one. */
  ghost predicate ClearOf(e: Element, f: Element, property: Property)
    reads e, f
  {
    forall j :: 0 <= j < |e.members| ==> e.members[j] !in f.members && e.members[j] != property
  }

  twostate lemma SameElement(e: Element)
    requires old(e.Valid()) && unchanged(e) && forall j :: 0 <= j < |e.members| ==> unchanged(e.members[j])
    ensures e.Valid() && e.Spec() == old(e.Spec())
  {
    assert forall j :: 0 <= j < |e.members| ==> e.members[j].Spec() == old(e.members[j].Spec());
    assert e.Spec().properties == old(e.Spec()).properties;
  }

  /** Elements and their properties are among these objects. */
  ghost predicate Within(es: seq<Element>, repr: set<object>)
    reads repr
  {
    forall i :: 0 <= i < |es| ==> es[i] in repr && forall j :: 0 <= j < |es[i].members| ==> es[i].members[j] in repr
  }

  ghost predicate WithinBut(es: seq<Element>, repr: set<object>, property: Property)
    reads repr
  {
    forall i :: 0 <= i < |es| ==>
      es[i] in repr &&
      forall j :: 0 <= j < |es[i].members| ==> es[i].members[j] in repr || es[i].members[j] == property
  }

  lemma WithinAlso(es: seq<Element>, repr: set<object>, property: Property)
    requires WithinBut(es, repr, property)
    ensures Within(es, repr + {property})
  {}

  lemma WithinMore(es: seq<Element>, repr: set<object>, e: Element)
    requires Within(es, repr) && e.members == []
    ensures Within(es + [e], repr + {e})
  {}

  ghost function ElementSpecs(es: seq<Element>, repr: set<object>): (specs: seq<ElementSpec>)
    requires Within(es, repr)
    reads repr
    ensures |specs| == |es| && forall i :: 0 <= i < |es| ==> specs[i] == es[i].Spec()
  {
    if es == [] then [] else ElementSpecs(es[..|es| - 1], repr) + [es[|es| - 1].Spec()]
  }

  /** The list of elements a parser keeps. */
  class Schema {
    var elements: Element?
    var lastElement: Element?
    var numElements: nat
    ghost var members: seq<Element>
    /** The records in the lists. */
    ghost var repr: set<object>

    constructor ()
      ensures Valid() && members == [] && repr == {}
    {
      elements, lastElement, numElements, members, repr := null, null, 0, [], {};
    }

    /** The list starts at `elements`, runs through all members in order and ends with `lastElement`. */
    ghost predicate Valid()
      reads this, repr
    {
      && this !in repr && Within(members, repr)
      && elements == ElementAt(members, 0)
      && (if members == [] then lastElement == null else lastElement == members[|members| - 1])
      && numElements == |members|
      && (forall i :: 0 <= i < |members| ==> members[i].owner == this && members[i].place == i && members[i].Valid())
      && (forall i {:trigger members[i].next} :: 0 <= i < |members| ==> members[i].next == ElementAt(members, i + 1))
    }

    ghost function Specs(): (specs: seq<ElementSpec>)
      requires Valid()
      reads this, repr
      ensures |specs| == |members| && forall i :: 0 <= i < |members| ==> specs[i] == members[i].Spec()
    {
      ElementSpecs(members, repr)
    }

    /** Takes over the records left by an earlier header. */
    method Clear()
      modifies this
      ensures Valid() && members == [] && repr == {}
    {
      elements, lastElement, numElements, members, repr := null, null, 0, [], {};
    }

    /** An element goes to the end of the list. */
    method Append(element: Element)
      requires Valid() && element.Valid() && element.members == [] && element.owner == null && element.next == null
      modifies this, repr, element
      ensures Valid() && members == old(members) + [element] && repr == old(repr) + {element}
      ensures Specs() == old(Specs()) + [old(element.Spec())]
    {
      hide ElementSpecs, SpecsOf;
      LinkElement(element);
      assert forall i :: 0 <= i < |members| ==> Specs()[i] == members[i].Spec();
    }

    method LinkElement(element: Element)
      requires Valid() && element.Valid() && element.members == [] && element.owner == null && element.next == null
      modifies this, repr, element
      ensures Valid() && members == old(members) + [element] && repr == old(repr) + {element}
      ensures forall i :: 0 <= i < |members| ==> members[i].Spec() == old((members + [element])[i].Spec())
    {
      hide Element.Valid, Element.Spec, Within;
      Chain(element);
      lastElement := element;
      numElements := numElements + 1;
      ghost var was, all := members, repr;
      members, repr := members + [element], repr + {element};
      assert Within(members, repr) by { WithinMore(was, all, element); }
    }

    /** Hangs the element behind the last one. */
    method Chain(element: Element)
      requires Valid() && element.Valid() && element.members == [] && element.owner == null && element.next == null
      modifies this`elements, repr, element
      ensures elements == ElementAt(members + [element], 0) && Within(members, repr)
      ensures element.owner == this && element.place == |members| && element.members == [] && element.next == null
      ensures element.Valid() && element.Spec() == old(element.Spec())
      ensures forall i :: 0 <= i < |members| ==> members[i].owner == this && members[i].place == i && members[i].Valid()
      ensures forall i {:trigger members[i].next} :: 0 <= i < |members| ==>
              members[i].next == ElementAt(members + [element], i + 1)
      ensures forall i :: 0 <= i < |members| ==> members[i].Spec() == old(members[i].Spec())
    {
      hide Element.Valid, Element.Spec;
      assert forall i :: 0 <= i < |members| ==> members[i] != element;
      element.Adopt(this, |members|);
      if elements != null {
        lastElement.SetNext(element);
      } else {
        elements := element;
      }
      forall i | 0 <= i < |members| - 1 ensures members[i].Valid() && members[i].Spec() == old(members[i].Spec()) {
        SameElement(members[i]);
      }
    }

    /** A property goes to the end of the last element's list. */
    method AppendProperty(property: Property)
      requires Valid() && members != [] && property.owner == null && property.next == null
      modifies this`repr, repr, property
      ensures Valid() && members == old(members) && repr == old(repr) + {property}
      ensures Specs() == AddProperty(old(Specs()), old(property.Spec()))
    {
      hide Schema.Valid, Element.Valid, Element.Spec, ElementSpecs, Within;
      AppendToLast(property);
      assert forall i :: 0 <= i < |members| ==> Specs()[i] == members[i].Spec();
    }

    method AppendToLast(property: Property)
      requires Valid() && members != [] && property.owner == null && property.next == null
      modifies this`repr, repr, property
      ensures Valid() && members == old(members) && repr == old(repr) + {property}
      ensures var n := |members| - 1;
              members[n].Spec() ==
                old(members[n].Spec()).(properties := old(members[n].Spec()).properties + [old(property.Spec())]) &&
              forall i :: 0 <= i < n ==> members[i].Spec() == old(members[i].Spec())
    {
      hide Element.Valid, Element.Spec, Within;
      GrowLast(property);
      repr := repr + {property};
      assert Within(members, repr) by { WithinAlso(members, old(repr), property); }
    }

    method GrowLast(property: Property)
      requires Valid() && members != [] && property.owner == null && property.next == null
      modifies repr, property
      ensures WithinBut(members, repr, property)
      ensures forall i :: 0 <= i < |members| ==> members[i].owner == this && members[i].place == i && members[i].Valid()
      ensures forall i {:trigger members[i].next} :: 0 <= i < |members| ==> members[i].next == ElementAt(members, i + 1)
      ensures var n := |members| - 1;
              members[n].Spec() ==
                old(members[n].Spec()).(properties := old(members[n].Spec()).properties + [old(property.Spec())]) &&
              forall i :: 0 <= i < n ==> members[i].Spec() == old(members[i].Spec())
    {
      hide Element.Valid, Element.Spec;
      forall i | 0 <= i < |members| - 1 ensures ClearOf(members[i], lastElement, property) {
        Apart(members[i], lastElement, property);
      }
      lastElement.Append(property);
      forall i | 0 <= i < |members| - 1 ensures members[i].Valid() && members[i].Spec() == old(members[i].Spec()) {
        assert members[i] != lastElement && old(ClearOf(members[i], lastElement, property));
        SameElement(members[i]);
      }
    }

    /** ply_parser_get_element */
    method GetElement(index: nat) returns (element: Element?)
      requires Valid()
      ensures element == ElementAt(members, index)
    {
      element := elements;
      for i := 0 to index
        invariant element == ElementAt(members, i)
      {
        if element == null {
          return null;
        }
        element := element.next;
      }
    }

    /** ply_parser_get_element_by_name: the first one of that name. */
    method GetElementByName(name: Bytes) returns (element: Element?)
      requires Valid()
      ensures element == null ==> forall i :: 0 <= i < |members| ==> members[i].name != name
      ensures element != null ==> exists i :: 0 <= i < |members| && element == members[i] && members[i].name == name &&
                                    forall j :: 0 <= j < i ==> members[j].name != name
    {
      element := elements;
      ghost var i := 0;
      while element != null
        invariant i <= |members| && element == ElementAt(members, i)
        invariant forall j :: 0 <= j < i ==> members[j].name != name
        decreases |members| - i
      {
        if element.name == name {
          return;
        }
        element := element.next;
        i := i + 1;
      }
    }
  }
}
