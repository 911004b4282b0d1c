/** Exactly which contract values survive being written out and read back. */
module DataContractTheorems {
  import opened Common
  import opened DataContract

  /** The value has the shape of the freshly made object: the same class and properties, contracts and
      lists where it has them, lists empty when fresh, items of the shape their class makes. */
  ghost predicate Conforms(classes: Classes, v: Obj, made: Obj)
    decreases v
  {
    match v
    case Contract(c, props) =>
      && made.Contract? && made.cls == c && props.Keys == made.props.Keys
      && forall k :: k in props ==> Conforms(classes, props[k], made.props[k])
    case ContractList(c, items) =>
      && made == ContractList(c, [])
      && forall i :: 0 <= i < |items| ==> c in classes && Conforms(classes, items[i], classes[c])
    case Plain(_) => made.Plain?
  }

  ghost predicate Rebuilds(classes: Classes, v: Obj, made: Obj) {
    Set(classes, made, Get(v)) == Ok(v)
  }

  ghost predicate AllRebuild(classes: Classes, items: seq<Obj>, c: Name) {
    forall i :: 0 <= i < |items| ==> c in classes && Rebuilds(classes, items[i], classes[c])
  }

  lemma {:induction false} ItemsRebuild(classes: Classes, c: Name, items: seq<Obj>, elements: seq<Data>)
    requires |elements| == |items| && forall i :: 0 <= i < |items| ==> elements[i] == Get(items[i])
    ensures SetItems(classes, c, elements) == Ok(items) <==> AllRebuild(classes, items, c)
    ensures SetItems(classes, c, elements).Ok? ==> |SetItems(classes, c, elements).value| == |items|
    decreases |items|
  {
    if items != [] {
      var n := |items| - 1;
      ItemsRebuild(classes, c, items[..n], elements[..n]);
      assert items == items[..n] + [items[n]];
      assert forall i :: 0 <= i < n ==> items[..n][i] == items[i];
    }
  }

  ghost predicate PropsRebuild(classes: Classes, v: Obj, made: Obj)
    requires v.Contract?
  {
    && made.Contract? && made.cls == v.cls && v.props.Keys == made.props.Keys
    && forall k :: k in v.props ==> Rebuilds(classes, v.props[k], made.props[k])
  }

  lemma {:induction false} ContractRebuilds(classes: Classes, v: Obj, made: Obj)
    requires v.Contract?
    ensures Rebuilds(classes, v, made) <==> PropsRebuild(classes, v, made)
  {
    var fields := Get(v).fields;
    assert fields.Keys == v.props.Keys && forall k :: k in v.props ==> fields[k] == Get(v.props[k]);
    if PropsRebuild(classes, v, made) {
      assert forall k :: k in fields && k in made.props ==> Set(classes, made.props[k], fields[k]).Ok?;
      assert Set(classes, made, Get(v)).value.props == v.props;
    } else if Rebuilds(classes, v, made) {
      var built := Set(classes, made, Get(v)).value.props;
      assert built.Keys == made.props.Keys;
      forall k | k in v.props
        ensures Rebuilds(classes, v.props[k], made.props[k])
      {
        assert k in fields && k in made.props && built[k] == Set(classes, made.props[k], fields[k]).value;
      }
      assert false;
    }
  }

  lemma {:induction false} ListRebuilds(classes: Classes, v: Obj, made: Obj)
    requires v.ContractList?
    ensures Rebuilds(classes, v, made)
       <==> made == ContractList(v.itemClass, []) && AllRebuild(classes, v.items, v.itemClass)
  {
    var elements := Get(v).elements;
    if made.ContractList? {
      ItemsRebuild(classes, made.itemClass, v.items, elements);
      var added := SetItems(classes, made.itemClass, elements);
      if added.Ok? {
        assert |made.items + added.value| == |made.items| + |v.items|;
        assert made.items == [] ==> made.items + added.value == added.value;
      }
    }
  }

  /** set_properties on a fresh object, given get_properties of a value, rebuilds the value exactly when the
      value has the fresh object's shape, at any depth of nested contracts and lists. */
  lemma {:induction false} RoundTripExactlyWhen(classes: Classes, v: Obj, made: Obj)
    ensures Set(classes, made, Get(v)) == Ok(v) <==> Conforms(classes, v, made)
    decreases v
  {
    match v {
      case Contract(_, props) =>
        ContractRebuilds(classes, v, made);
        if made.Contract? && props.Keys == made.props.Keys {
          forall k | k in props
            ensures Rebuilds(classes, props[k], made.props[k]) <==> Conforms(classes, props[k], made.props[k])
          {
            RoundTripExactlyWhen(classes, props[k], made.props[k]);
          }
        }
      case ContractList(c, items) =>
        ListRebuilds(classes, v, made);
        if c in classes {
          forall i | 0 <= i < |items|
            ensures Rebuilds(classes, items[i], classes[c]) <==> Conforms(classes, items[i], classes[c])
          {
            RoundTripExactlyWhen(classes, items[i], classes[c]);
          }
        } else if items != [] {
          var first := items[0];
        }
      case Plain(_) =>
    }
  }

  // ----- Reading, writing and reading again -----

  /** An object as a constructor leaves it: every list in it empty. */
  ghost predicate Fresh(o: Obj)
    decreases o
  {
    match o
    case Contract(_, props) => forall k :: k in props ==> Fresh(props[k])
    case ContractList(_, items) => items == []
    case Plain(_) => true
  }

  ghost predicate FreshClasses(classes: Classes) {
    forall c :: c in classes ==> Fresh(classes[c])
  }

  lemma {:induction false} FreshConforms(classes: Classes, o: Obj)
    requires Fresh(o)
    ensures Conforms(classes, o, o)
    decreases o
  {
    if o.Contract? {
      forall k | k in o.props
        ensures Conforms(classes, o.props[k], o.props[k])
      {
        FreshConforms(classes, o.props[k]);
      }
    }
  }

  lemma {:induction false} SetItemsConform(classes: Classes, c: Name, elements: seq<Data>)
    requires FreshClasses(classes) && SetItems(classes, c, elements).Ok?
    ensures var items := SetItems(classes, c, elements).value;
            forall i :: 0 <= i < |items| ==> c in classes && Conforms(classes, items[i], classes[c])
    decreases elements
  {
    if elements != [] {
      SetItemsConform(classes, c, elements[..|elements| - 1]);
      SetConforms(classes, classes[c], elements[|elements| - 1]);
    }
  }

  lemma {:induction false} SetConforms(classes: Classes, o: Obj, data: Data)
    requires FreshClasses(classes) && Fresh(o) && Set(classes, o, data).Ok?
    ensures Conforms(classes, Set(classes, o, data).value, o)
    decreases data, 0
  {
    match o {
      case Contract(_, props) =>
        forall k | k in props
          ensures Conforms(classes, Set(classes, o, data).value.props[k], props[k])
        {
          if k in data.fields {
            SetConforms(classes, props[k], data.fields[k]);
          } else {
            FreshConforms(classes, props[k]);
          }
        }
      case ContractList(c, items) =>
        SetItemsConform(classes, c, data.elements);
      case Plain(_) =>
    }
  }

  /** Whatever data was accepted, writing out the result and reading it again gives the same object. */
  lemma {:induction false} ReadIsStable(classes: Classes, o: Obj, data: Data)
    requires FreshClasses(classes) && Fresh(o) && Set(classes, o, data).Ok?
    ensures Set(classes, o, Get(Set(classes, o, data).value)) == Set(classes, o, data)
  {
    SetConforms(classes, o, data);
    RoundTripExactlyWhen(classes, Set(classes, o, data).value, o);
  }

  /** A contract where the fresh object has a plain value, as the extension status in a handler status,
      comes back as plain data. */
  lemma {:induction false} ContractComesBackPlain(classes: Classes, v: Obj, made: Obj, k: Name)
    requires v.Contract? && k in v.props && v.props[k].Contract?
    requires made.Contract? && k in made.props && made.props[k].Plain?
    ensures var r := Set(classes, made, Get(v));
            r != Ok(v) && (r.Ok? ==> r.value.props[k] == Plain(Get(v.props[k])))
  {
    assert !Conforms(classes, v.props[k], made.props[k]);
    RoundTripExactlyWhen(classes, v, made);
  }
}
