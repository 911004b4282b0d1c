/** Data contracts: objects written out as plain data and read back. */
module DataContract {
  import opened Common

  type Name = string

  /** Plain data: what JSON can hold. */
  datatype Data = Nothing | Scalar(text: string) | Dict(fields: map<Name, Data>) | Array(elements: seq<Data>)

  /** A contract with its class and attributes, a contract list with the class of its items, or any other value. */
  datatype Obj =
    | Contract(cls: Name, props: map<Name, Obj>)
    | ContractList(itemClass: Name, items: seq<Obj>)
    | Plain(data: Data)

  /** What each class makes when called without arguments; a class that cannot be called so is missing. */
  type Classes = map<Name, Obj>

  /** A ProtocolError for data of the wrong kind, or the failure to make an item. */
  datatype SetError = Refused

  /** get_properties. */
  function Get(o: Obj): Data
    decreases o
  {
    match o
    case Contract(_, props) => Dict(map k | k in props :: Get(props[k]))
    case ContractList(_, items) => Array(seq(|items|, i requires 0 <= i < |items| => Get(items[i])))
    case Plain(data) => data
  }

  /** set_properties: properties the object does not have are ignored, those not in the data are kept. */
  function Set(classes: Classes, o: Obj, data: Data): Result<Obj, SetError>
    decreases data, 0
  {
    match o
    case Contract(c, props) =>
      if !data.Dict? then Err(Refused)
      else if exists k :: k in data.fields && k in props && Set(classes, props[k], data.fields[k]).Err? then
        Err(Refused)
      else
        Ok(Contract(c, map k | k in props ::
                         if k in data.fields then Set(classes, props[k], data.fields[k]).value else props[k]))
    case ContractList(c, items) =>
      if !data.Array? then Err(Refused)
      else
        var added := SetItems(classes, c, data.elements);
        if added.Err? then Err(Refused) else Ok(ContractList(c, items + added.value))
    case Plain(_) => Ok(Plain(data))
  }

  function SetItems(classes: Classes, c: Name, elements: seq<Data>): Result<seq<Obj>, SetError>
    decreases elements
  {
    if elements == [] then Ok([])
    else if c !in classes then Err(Refused)
    else
      var init := SetItems(classes, c, elements[..|elements| - 1]);
      var last := Set(classes, classes[c], elements[|elements| - 1]);
      if init.Err? || last.Err? then Err(Refused) else Ok(init.value + [last.value])
  }

  // ----- As the source writes them -----

  method GetProperties(o: Obj) returns (data: Data)
    ensures data == Get(o)
    decreases o
  {
    match o {
      case Contract(_, props) =>
        var fields: map<Name, Data> := map[];
        var left := props.Keys;
        while left != {}
          invariant left <= props.Keys && fields == map k | k in props && k !in left :: Get(props[k])
          decreases left
        {
          var k := AnyOf(left);
          var field := GetProperties(props[k]);
          fields := fields[k := field];
          left := left - {k};
        }
        data := Dict(fields);
      case ContractList(_, items) =>
        var elements: seq<Data> := [];
        for i := 0 to |items|
          invariant |elements| == i && forall j :: 0 <= j < i ==> elements[j] == Get(items[j])
        {
          var element := GetProperties(items[i]);
          elements := elements + [element];
        }
        data := Array(elements);
      case Plain(d) =>
        data := d;
    }
  }

  /** The properties set so far: those still to come have their old values. */
  ghost predicate SetSoFar(classes: Classes, props: map<Name, Obj>, fields: map<Name, Data>, left: set<Name>,
                           now: map<Name, Obj>)
  {
    && now.Keys == props.Keys
    && forall k :: k in props ==>
         if k in fields && k !in left then Set(classes, props[k], fields[k]) == Ok(now[k]) else now[k] == props[k]
  }

  /** The loop visits the data's properties in any order. */
  method SetProperties(classes: Classes, o: Obj, data: Data) returns (r: Result<Obj, SetError>)
    ensures r == Set(classes, o, data)
    decreases data
  {
    match o {
      case Contract(c, props) =>
        if !data.Dict? {
          return Err(Refused);
        }
        var now, left := props, data.fields.Keys;
        while left != {}
          invariant left <= data.fields.Keys && SetSoFar(classes, props, data.fields, left, now)
          decreases left
        {
          var k := AnyOf(left);
          left := left - {k};
          if k in props {
            var value := SetProperties(classes, props[k], data.fields[k]);
            if value.Err? {
              assert Set(classes, props[k], data.fields[k]).Err?;
              return Err(Refused);
            }
            now := now[k := value.value];
          }
        }
        assert forall k :: k in data.fields && k in props ==> Set(classes, props[k], data.fields[k]).Ok?;
        ghost var built := Set(classes, o, data).value.props;
        assert forall k :: k in props ==> built[k] == now[k];
        assert built == now;
        r := Ok(Contract(c, now));
      case ContractList(c, items) =>
        if !data.Array? {
          return Err(Refused);
        }
        r := AppendItems(classes, c, items, data.elements, data);
      case Plain(_) =>
        r := Ok(Plain(data));
    }
  }

  method AppendItems(classes: Classes, c: Name, items: seq<Obj>, elements: seq<Data>, ghost data: Data)
    returns (r: Result<Obj, SetError>)
    requires data == Array(elements)
    ensures r == Set(classes, ContractList(c, items), data)
    decreases data, 0
  {
    var now := items;
    for i := 0 to |elements|
      invariant SetItems(classes, c, elements[..i]).Ok? && now == items + SetItems(classes, c, elements[..i]).value
    {
      assert elements[..i + 1][..i] == elements[..i];
      if c !in classes {
        FailedPrefix(classes, c, elements, i + 1);
        return Err(Refused);
      }
      var item := SetProperties(classes, classes[c], elements[i]);
      if item.Err? {
        FailedPrefix(classes, c, elements, i + 1);
        return Err(Refused);
      }
      now := now + [item.value];
    }
    assert elements[..|elements|] == elements;
    r := Ok(ContractList(c, now));
  }

  lemma {:induction false} FailedPrefix(classes: Classes, c: Name, elements: seq<Data>, n: nat)
    requires n <= |elements| && SetItems(classes, c, elements[..n]).Err?
    ensures SetItems(classes, c, elements).Err?
    decreases |elements|
  {
    if n < |elements| {
      var init := elements[..|elements| - 1];
      assert init[..n] == elements[..n];
      FailedPrefix(classes, c, init, n);
    } else {
      assert elements[..n] == elements;
    }
  }
}
