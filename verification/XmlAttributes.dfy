/** An element's attributes: a ring of nodes closed by a sentinel. */
module XmlAttributes {
  import opened CStrings
  import opened XmlTree

  class TiXmlAttribute {
    var name: string
    var value: string
    var prev: TiXmlAttribute?
    var next: TiXmlAttribute?

    constructor ()
      ensures name == "" && value == ""
    {
      name, value, prev, next := "", "", null, null;
    }

    /** The following attribute; one without name and value is taken for the sentinel. */
    method Next() returns (r: TiXmlAttribute?)
      requires next != null
      ensures r == if next.name == "" && next.value == "" then null else next
    {
      if next.value == "" && next.name == "" {
        return null;
      }
      return next;
    }
  }

  ghost function AttributesOf(items: seq<TiXmlAttribute>): (attrs: seq<Attribute>)
    reads items`name, items`value
    ensures |attrs| == |items| && forall i :: 0 <= i < |items| ==> attrs[i] == Attribute(items[i].name, items[i].value)
  {
    if items == [] then [] else [Attribute(items[0].name, items[0].value)] + AttributesOf(items[1..])
  }

  class TiXmlAttributeSet {
    const sentinel: TiXmlAttribute
    ghost var items: seq<TiXmlAttribute>

    constructor ()
      ensures Ring() && items == [] && fresh(sentinel) && sentinel.name == "" && sentinel.value == ""
    {
      var node := new TiXmlAttribute();
      sentinel := node;
      items := [];
      new;
      sentinel.next := sentinel;
      sentinel.prev := sentinel;
    }

    /** The node at a position of the ring; the sentinel is before the first and after the last. */
    ghost function NodeAt(i: int): TiXmlAttribute
      reads `items
    {
      if 0 <= i < |items| then items[i] else sentinel
    }

    ghost predicate LinkedAt(i: int)
      reads `items, sentinel`next, sentinel`prev, items`next, items`prev
    {
      NodeAt(i).next == NodeAt(i + 1) && NodeAt(i).prev == NodeAt(i - 1)
    }

    /** Going on from the sentinel one meets every item once and is back at the sentinel, in both directions. */
    ghost predicate Ring()
      reads `items, sentinel`next, sentinel`prev, items`next, items`prev
    {
      && sentinel !in items
      && (forall i, j :: 0 <= i < j < |items| ==> items[i] != items[j])
      && (forall i :: 0 <= i < |items| ==> LinkedAt(i))
      && sentinel.next == NodeAt(0) && sentinel.prev == NodeAt(|items| - 1)
    }

    ghost function View(): (attrs: seq<Attribute>)
      reads `items, items`name, items`value
      ensures |attrs| == |items|
      ensures forall i :: 0 <= i < |items| ==> attrs[i] == Attribute(items[i].name, items[i].value)
    {
      AttributesOf(items)
    }

    method Find(name: string) returns (r: TiXmlAttribute?)
      requires Ring()
      ensures r != null ==> r in items && r.name == name
      ensures r == null ==> forall i :: 0 <= i < |items| ==> items[i].name != name
    {
      var node := sentinel.next;
      ghost var i := 0;
      while node != sentinel
        invariant 0 <= i <= |items| && node == NodeAt(i)
        invariant forall k :: 0 <= k < i ==> items[k].name != name
        decreases |items| - i
      {
        if node.name == name {
          return node;
        }
        assert LinkedAt(i);
        node := node.next;
        i := i + 1;
      }
      return null;
    }

    method Add(addMe: TiXmlAttribute)
      requires Ring() && addMe !in items && addMe != sentinel
      modifies `items, addMe`next, addMe`prev, sentinel`prev, sentinel`next, items`next
      ensures Ring() && items == old(items) + [addMe]
    {
      assert |items| > 0 ==> LinkedAt(|items| - 1);
      addMe.next := sentinel;
      addMe.prev := sentinel.prev;
      sentinel.prev.next := addMe;
      sentinel.prev := addMe;
      items := items + [addMe];
      forall i | 0 <= i < |items| ensures LinkedAt(i) {
        assert i < |old(items)| ==> old(LinkedAt(i));
      }
    }

    method Remove(removeMe: TiXmlAttribute)
      requires Ring() && removeMe in items
      modifies `items, sentinel`next, sentinel`prev, items`next, items`prev
      ensures Ring()
      ensures exists i | 0 <= i < |old(items)| ::
        old(items)[i] == removeMe && items == old(items)[..i] + old(items)[i + 1..]
    {
      var node := sentinel.next;
      ghost var at := 0;
      while node != removeMe
        invariant 0 <= at < |items| && node == NodeAt(at)
        invariant removeMe in items[at..]
        decreases |items| - at
      {
        assert LinkedAt(at);
        node := node.next;
        at := at + 1;
      }
      Unlink(node, at);
    }

    method Unlink(node: TiXmlAttribute, ghost at: nat)
      requires Ring() && at < |items| && items[at] == node
      modifies `items, sentinel`next, sentinel`prev, items`next, items`prev
      ensures Ring() && items == old(items)[..at] + old(items)[at + 1..]
    {
      assert LinkedAt(at);
      node.prev.next := node.next;
      node.next.prev := node.prev;
      node.next := null;
      node.prev := null;
      items := items[..at] + items[at + 1..];
      forall i | 0 <= i < |items| ensures LinkedAt(i) {
        if i < at {
          assert old(LinkedAt(i));
        } else {
          assert old(LinkedAt(i + 1));
        }
      }
    }

    ghost predicate Valid()
      reads `items, sentinel`next, sentinel`prev, items`next, items`prev, items`name, items`value
    {
      Ring() && OneOfEachName(View())
    }

    /** The attribute with this name, added at the end with an empty value if there is none. */
    method FindOrCreate(name: string) returns (attrib: TiXmlAttribute)
      requires Valid()
      modifies `items, sentinel`prev, sentinel`next, items`next
      ensures Ring() && attrib in items && attrib.name == name
      ensures View() == if Holds(old(View()), name) then old(View()) else old(View()) + [Attribute(name, "")]
      ensures forall k :: k in items && k !in old(items) ==> fresh(k)
    {
      hide Ring, OneOfEachName, AttributesOf, Holds;
      ghost var before := View();
      var found := Find(name);
      HoldsIff(View(), name, found);
      if found != null {
        attrib := found;
      } else {
        attrib := new TiXmlAttribute();
        Add(attrib);
        attrib.name := name;
        assert items[|items| - 1] == attrib;
        assert View() == before + [Attribute(name, "")];
      }
    }

    lemma HoldsIff(view: seq<Attribute>, name: string, found: TiXmlAttribute?)
      requires view == View()
      requires found != null ==> found in items && found.name == name
      requires found == null ==> forall i :: 0 <= i < |items| ==> items[i].name != name
      ensures Holds(view, name) <==> found != null
    {
      if found != null {
        var i :| 0 <= i < |items| && items[i] == found;
        assert view[i].name == name;
      }
    }

    /** Sets the attribute's value: in its place if it has one, else at the end. */
    method SetAttribute(name: string, value: string)
      requires Valid()
      modifies `items, sentinel`prev, sentinel`next, items`next, items`value
      ensures Valid() && View() == Assigned(old(View()), name, value)
      ensures forall k :: k in items && k !in old(items) ==> fresh(k)
    {
      hide Ring, OneOfEachName, Assigned, Holds, AttributesOf;
      ghost var before := View();
      var attrib := FindOrCreate(name);
      ghost var between := View();
      ghost var at :| 0 <= at < |items| && items[at] == attrib;
      attrib.value := value;
      ItemsDiffer();
      assert View() == between[at := Attribute(name, value)];
      NamesStayApart(before, name, value, between, at);
    }

    method First() returns (r: TiXmlAttribute?)
      requires Ring()
      ensures r == if items == [] then null else items[0]
    {
      return if sentinel.next == sentinel then null else sentinel.next;
    }

    /** Nothing of one ring is in the other. */
    ghost predicate ApartFrom(other: TiXmlAttributeSet)
      reads `items, other`items
    {
      && this != other && sentinel != other.sentinel && sentinel !in other.items && other.sentinel !in items
      && forall j, k :: 0 <= j < |items| && 0 <= k < |other.items| ==> items[j] != other.items[k]
    }

    /** One attribute is set in the other ring; names and values are handed over as C strings. */
    method CopyOne(attribute: TiXmlAttribute, target: TiXmlAttributeSet, ghost i: nat) returns (r: TiXmlAttribute?)
      requires Ring() && sentinel.name == "" && sentinel.value == "" && target.Valid() && ApartFrom(target)
      requires i < |items| && items[i] == attribute
      modifies target`items, target.sentinel`prev, target.sentinel`next, target.items`next, target.items`value
      ensures Ring() && View() == old(View()) && target.Valid() && ApartFrom(target)
      ensures target.View() == Assigned(old(target.View()), CString(View()[i].name), CString(View()[i].value))
      ensures forall k :: k in target.items && k !in old(target.items) ==> fresh(k)
      ensures r == if i + 1 < |items| && !IsEmpty(View()[i + 1]) then items[i + 1] else null
    {
      hide CString, Assigned, OneOfEachName, AttributesOf, Ring;
      target.SetAttribute(CString(attribute.name), CString(attribute.value));
      assert items == old(items) && unchanged(sentinel) && forall k :: 0 <= k < |items| ==> unchanged(items[k]);
      forall k | 0 <= k < |target.items| ensures target.items[k] !in items && target.items[k] != sentinel {
        assert target.items[k] in old(target.items) || fresh(target.items[k]);
      }
      RingAt(i);
      r := attribute.Next();
    }

    lemma RingAt(i: nat)
      requires Ring() && i < |items|
      ensures items[i].next == NodeAt(i + 1)
    {
      assert LinkedAt(i);
    }

    /** Sets all attributes in another ring. */
    method CopyTo(target: TiXmlAttributeSet)
      requires Ring() && sentinel.name == "" && sentinel.value == "" && target.Valid() && ApartFrom(target)
      modifies target`items, target.sentinel`prev, target.sentinel`next, target.items`next, target.items`value
      ensures Ring() && View() == old(View()) && target.Valid() && ApartFrom(target)
      ensures target.View() == CopiedAttributes(Walked(View()), old(target.View()))
    {
      hide Ring, CString, Remaining, Assigned, OneOfEachName, CopiedAttributes, Walked, AttributesOf;
      ghost var view, i := View(), 0;
      AllRemain(view, target.View());
      var attribute := First();
      while attribute != null
        invariant i <= |items| && (attribute != null ==> i < |items| && attribute == items[i])
        invariant Ring() && View() == view && target.Valid() && ApartFrom(target)
        invariant forall k :: 0 <= k < |target.items| ==> target.items[k] in old(target.items) || fresh(target.items[k])
        invariant Remaining(view, i, attribute != null, target.View())
               == CopiedAttributes(Walked(view), old(target.View()))
        decreases |items| - i, attribute != null
      {
        OneCopied(view, i, target.View());
        ghost var before := target.items;
        attribute := CopyOne(attribute, target, i);
        forall k | 0 <= k < |target.items|
          ensures target.items[k] in old(target.items) || fresh(target.items[k])
        {
          assert target.items[k] !in before ==> fresh(target.items[k]);
        }
        i := i + 1;
      }
      NoneRemain(view, i, target.View());
    }

    lemma ItemsDiffer()
      requires Ring()
      ensures forall i, j :: 0 <= i < j < |items| ==> items[i] != items[j]
    {
    }
  }

  /** No two attributes have one name. */
  predicate OneOfEachName(attrs: seq<Attribute>)
  {
    forall i, j :: 0 <= i < j < |attrs| ==> attrs[i].name != attrs[j].name
  }

  lemma NamesStayApart(before: seq<Attribute>, name: string, value: string, between: seq<Attribute>, at: nat)
    requires OneOfEachName(before)
    requires between == (if Holds(before, name) then before else before + [Attribute(name, "")])
    requires at < |between| && between[at].name == name
    ensures OneOfEachName(between[at := Attribute(name, value)])
    ensures Assigned(before, name, value) == between[at := Attribute(name, value)]
  {
    assert OneOfEachName(between) by {
      hide Assigned;
    }
    AssignedAt(before, between, name, value, at);
    hide Assigned, Holds;
  }

  predicate Holds(attrs: seq<Attribute>, name: string)
  {
    exists i :: 0 <= i < |attrs| && attrs[i].name == name
  }

  /** The attributes with this one's value set. */
  function Assigned(attrs: seq<Attribute>, name: string, value: string): seq<Attribute>
  {
    if attrs == [] then [Attribute(name, value)]
    else if attrs[0].name == name then [Attribute(name, value)] + attrs[1..]
    else [attrs[0]] + Assigned(attrs[1..], name, value)
  }

  lemma {:induction false} AssignedAt(before: seq<Attribute>, between: seq<Attribute>, name: string, value: string,
                                      at: nat)
    requires between == (if Holds(before, name) then before else before + [Attribute(name, "")])
    requires at < |between| && between[at].name == name
    requires forall i :: 0 <= i < |between| && i != at ==> between[i].name != name
    ensures Assigned(before, name, value) == between[at := Attribute(name, value)]
  {
    if before == [] {
      assert between == [Attribute(name, "")];
    } else if at == 0 {
      assert before[0].name == name;
    } else {
      assert before[0].name != name;
      assert Holds(before, name) <==> Holds(before[1..], name) by {
        if Holds(before, name) {
          var i :| 0 <= i < |before| && before[i].name == name;
          assert before[1..][i - 1].name == name;
        }
      }
      assert between[1..] == (if Holds(before[1..], name) then before[1..] else before[1..] + [Attribute(name, "")]);
      AssignedAt(before[1..], between[1..], name, value, at - 1);
      assert between[at := Attribute(name, value)] == [between[0]] + between[1..][at - 1 := Attribute(name, value)];
    }
  }

  // ----- copies

  /** The attributes set one after the other, each name and value up to its first NUL. */
  function CopiedAttributes(attrs: seq<Attribute>, copied: seq<Attribute>): seq<Attribute>
  {
    if attrs == [] then copied
    else CopiedAttributes(attrs[1..], Assigned(copied, CString(attrs[0].name), CString(attrs[0].value)))
  }

  /** What the copy will be, with those from the `i`-th on still to come if there are more. */
  function Remaining(attrs: seq<Attribute>, i: nat, more: bool, copied: seq<Attribute>): seq<Attribute>
    requires more ==> i < |attrs|
  {
    CopiedAttributes(if more then [attrs[i]] + UntilEmpty(attrs[i + 1..]) else [], copied)
  }

  lemma AllRemain(attrs: seq<Attribute>, copied: seq<Attribute>)
    ensures Remaining(attrs, 0, |attrs| > 0, copied) == CopiedAttributes(Walked(attrs), copied)
  {
  }

  lemma NoneRemain(attrs: seq<Attribute>, i: nat, copied: seq<Attribute>)
    ensures Remaining(attrs, i, false, copied) == copied
  {
  }

  lemma OneCopied(attrs: seq<Attribute>, i: nat, copied: seq<Attribute>)
    requires i < |attrs|
    ensures var more := i + 1 < |attrs| && !IsEmpty(attrs[i + 1]);
      Remaining(attrs, i, true, copied)
      == Remaining(attrs, i + 1, more, Assigned(copied, CString(attrs[i].name), CString(attrs[i].value)))
  {
    hide Assigned, CString;
    var rest := UntilEmpty(attrs[i + 1..]);
    assert ([attrs[i]] + rest)[1..] == rest;
    if i + 1 < |attrs| {
      assert attrs[i + 1..][1..] == attrs[i + 2..];
    }
  }
}
