/**
 * The slots for optional companion libraries (`src/api/api.lib.js`): four
 * module variables, written by `_dt_setLib` and read by `_dt_getLib`.
 */
module LibRegistry {
  import opened JsValue

  predicate IsLibName(t: string) {
    t == "bootstrap" || t == "foundation" || t == "luxon" || t == "moment"
  }

  /** The four slots as a value. */
  datatype Slots = Slots(bootstrap: Value, foundation: Value, luxon: Value, moment: Value)

  /** What `_dt_getLib(t)` reads from the slots. */
  function Read(s: Slots, t: string): (r: Value)
    ensures !IsLibName(t) ==> r == Null
  {
    if t == "bootstrap" then s.bootstrap
    else if t == "foundation" then s.foundation
    else if t == "luxon" then s.luxon
    else if t == "moment" then s.moment
    else Null
  }

  /** The slots after `_dt_setLib(t, v)`. */
  function Write(s: Slots, t: string, v: Value): Slots {
    if t == "bootstrap" then s.(bootstrap := v)
    else if t == "foundation" then s.(foundation := v)
    else if t == "luxon" then s.(luxon := v)
    else if t == "moment" then s.(moment := v)
    else s
  }

  /** A library that was set reads back as set; the other slots are untouched. */
  lemma ReadAfterWrite(s: Slots, t: string, v: Value, u: string)
    ensures Read(Write(s, t, v), u) == if IsLibName(t) && u == t then v else Read(s, u)
  {
  }

  /** Setting an unknown name changes nothing. */
  lemma WriteUnknown(s: Slots, t: string, v: Value)
    requires !IsLibName(t)
    ensures Write(s, t, v) == s
  {
  }

  class Libraries {
    var bootstrap: Value
    var foundation: Value
    var luxon: Value
    var moment: Value

    function Contents(): Slots
      reads this
    {
      Slots(bootstrap, foundation, luxon, moment)
    }

    /** Before any set, every slot holds `undefined`. */
    constructor ()
      ensures forall t :: IsLibName(t) ==> Read(Contents(), t) == Undefined
    {
      bootstrap, foundation, luxon, moment := Undefined, Undefined, Undefined, Undefined;
    }

    /** `_dt_getLib(type)`. */
    function GetLib(t: string): (r: Value)
      reads this
      ensures r == Read(Contents(), t)
      ensures !IsLibName(t) ==> r == Null
    {
      match t
      case "bootstrap" => bootstrap
      case "foundation" => foundation
      case "luxon" => luxon
      case "moment" => moment
      case _ => Null
    }

    /** `_dt_setLib(type, newValue)`. */
    method SetLib(t: string, v: Value)
      modifies this
      ensures Contents() == Write(old(Contents()), t, v)
      ensures IsLibName(t) ==> GetLib(t) == v
      ensures forall u :: u != t ==> GetLib(u) == old(GetLib(u))
    {
      match t
      case "bootstrap" => bootstrap := v;
      case "foundation" => foundation := v;
      case "luxon" => luxon := v;
      case "moment" => moment := v;
      case _ =>
    }
  }
}
