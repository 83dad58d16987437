/** `debug_str`, the formatter behind `__wbindgen_debug_string`: a
    developer-facing rendering of any host value. Number-to-text and
    `JSON.stringify` are host library behaviour and are supplied by the
    caller. */
module DebugFormat {
  import opened Wrappers
  import opened JsValue

  /** The host library the formatter calls: `${x}` on a number, and
      `JSON.stringify` on a plain object given by its `id` (`None` when it
      throws, for instance on a cycle; the text otherwise, "undefined"
      included, as string concatenation would show it). */
  datatype HostLib = HostLib(numberText: real -> JsString, json: nat -> Option<JsString>)

  /** The class name the pattern `\[object ([^\]]+)\]` pulls out of the
      text `[object <tag>]` that `Object.prototype.toString` gives: the tag
      up to its first `]`, which must leave at least one unit. `None` means
      the pattern does not match there, and `exec` returns `null`. */
  function ClassName(tag: JsString): (r: Option<JsString>)
    ensures r.Some? <==> |tag| > 0 && tag[0] != ']' as int
    ensures r.Some? ==> 0 < |r.value| <= |tag| && r.value == tag[..|r.value|]
    ensures r.Some? ==> forall k :: 0 <= k < |r.value| ==> r.value[k] != ']' as int
    ensures r.Some? && |r.value| < |tag| ==> tag[|r.value|] == ']' as int
  {
    var k := UpTo(tag, ']' as int, 0);
    if k == 0 then None else Some(tag[..k])
  }

  /** A tag without `]` is its own class name. */
  lemma ClassNamePlain(tag: JsString)
    requires |tag| > 0 && forall k :: 0 <= k < |tag| ==> tag[k] != ']' as int
    ensures ClassName(tag) == Some(tag)
  {
    assert tag[..|tag|] == tag;
  }

  /** The index of the first `u` in `s` at or after `i`, or `|s|`. */
  function UpTo(s: JsString, u: int, i: nat): (k: nat)
    requires i <= |s|
    ensures i <= k <= |s|
    ensures forall j :: i <= j < k ==> s[j] != u
    ensures k < |s| ==> s[k] == u
    decreases |s| - i
  {
    if i == |s| || s[i] == u then i else UpTo(s, u, i + 1)
  }

  const ErrorIndent: JsString := Lit("\n        ")

  /** `debug_str(val)`; `None` when it throws, which it does only when the
      class-name pattern fails to match (and `builtInMatches.length` is then
      read off `null`), here or inside an array. */
  function DebugStr(lib: HostLib, v: Value): Option<JsString>
    decreases v
  {
    match v
    case Number(x) => Some(lib.numberText(x))
    case Bool(b) => Some(if b then Lit("true") else Lit("false"))
    case Null => Some(Lit("null"))
    case Undefined => Some(Lit("undefined"))
    case Str(s) => Some(Lit("\"") + s + Lit("\""))
    case Symbol(d) =>
      Some(if d.None? then Lit("Symbol") else Lit("Symbol(") + d.value + Lit(")"))
    case Function(name, _) =>
      Some(if name.Some? && |name.value| > 0 then Lit("Function(") + name.value + Lit(")") else Lit("Function"))
    case Array(elems) =>
      (match DebugElems(lib, elems, 0, Lit("["))
       case None => None
       case Some(body) => Some(body + Lit("]")))
    case Object(tag, id) =>
      (match ClassName(tag)
       case None => None
       case Some(cn) =>
         if cn == Lit("Object") then
           Some(match lib.json(id)
                case None => Lit("Object")
                case Some(j) => Lit("Object(") + j + Lit(")"))
         else Some(cn))
    case Error(name, message, stack) =>
      Some(name + Lit(": ") + message + ErrorIndent + stack)
  }

  /** The array loop: the first element as is, each later one after ", ",
      appended to `acc`. */
  function DebugElems(lib: HostLib, elems: seq<Value>, i: nat, acc: JsString): Option<JsString>
    requires i <= |elems|
    decreases elems, |elems| - i
  {
    if i == |elems| then Some(acc)
    else
      match DebugStr(lib, elems[i])
      case None => None
      case Some(t) => DebugElems(lib, elems, i + 1, acc + (if i == 0 then [] else Lit(", ")) + t)
  }

  // ---------------------------------------------------------------------
  // Arrays against a reference rendering

  /** `parts` separated by `sep`. */
  function Join(parts: seq<JsString>, sep: JsString): JsString {
    if |parts| == 0 then []
    else if |parts| == 1 then parts[0]
    else Join(parts[..|parts| - 1], sep) + sep + parts[|parts| - 1]
  }

  /** Every element renders. */
  predicate AllRender(lib: HostLib, elems: seq<Value>) {
    forall i :: 0 <= i < |elems| ==> DebugStr(lib, elems[i]).Some?
  }

  function Rendered(lib: HostLib, elems: seq<Value>): seq<JsString>
    requires AllRender(lib, elems)
  {
    seq(|elems|, i requires 0 <= i < |elems| => DebugStr(lib, elems[i]).value)
  }

  /** After `i` elements the loop's accumulator holds those elements joined
      with ", ", and it either finishes with all of them or throws exactly
      when one of the rest does. */
  lemma {:induction false} DebugElemsJoin(lib: HostLib, elems: seq<Value>, i: nat, pre: JsString)
    requires i <= |elems| && AllRender(lib, elems[..i])
    ensures AllRender(lib, elems) ==>
      DebugElems(lib, elems, i, pre + Join(Rendered(lib, elems[..i]), Lit(", ")))
        == Some(pre + Join(Rendered(lib, elems), Lit(", ")))
    ensures !AllRender(lib, elems) ==>
      DebugElems(lib, elems, i, pre + Join(Rendered(lib, elems[..i]), Lit(", "))) == None
    decreases |elems| - i
  {
    var acc := pre + Join(Rendered(lib, elems[..i]), Lit(", "));
    if i == |elems| {
      assert elems[..i] == elems;
    } else {
      match DebugStr(lib, elems[i])
      case None =>
        assert !AllRender(lib, elems);
      case Some(t) =>
        var upto := elems[..i + 1];
        assert AllRender(lib, upto) by {
          forall k | 0 <= k < |upto|
            ensures DebugStr(lib, upto[k]).Some?
          {
            if k < i {
              assert upto[k] == elems[..i][k];
            }
          }
        }
        var before := Rendered(lib, elems[..i]);
        var after := Rendered(lib, elems[..i + 1]);
        assert after[..i] == before;
        assert after[i] == t;
        assert Join(after, Lit(", ")) == Join(before, Lit(", ")) + (if i == 0 then [] else Lit(", ")) + t by {
          if i > 0 {
            assert after[..|after| - 1] == before;
          }
        }
        assert acc + (if i == 0 then [] else Lit(", ")) + t == pre + Join(after, Lit(", "));
        DebugElemsJoin(lib, elems, i + 1, pre);
        if AllRender(lib, elems) {
          assert Rendered(lib, elems[..i + 1]) == after;
        }
    }
  }

  /** An array renders as its elements' renderings joined with ", " inside
      brackets, and throws exactly when one of its elements does. */
  lemma ArrayRendering(lib: HostLib, elems: seq<Value>)
    ensures AllRender(lib, elems) ==>
      DebugStr(lib, Array(elems)) == Some(Lit("[") + Join(Rendered(lib, elems), Lit(", ")) + Lit("]"))
    ensures !AllRender(lib, elems) <==> DebugStr(lib, Array(elems)).None?
  {
    assert elems[..0] == [];
    assert Rendered(lib, elems[..0]) == [];
    assert Lit("[") + Join(Rendered(lib, elems[..0]), Lit(", ")) == Lit("[");
    DebugElemsJoin(lib, elems, 0, Lit("["));
  }

  /** Only the class-name pattern can make the formatter throw: a value
      holding no objects always renders. */
  predicate ObjectFree(v: Value)
    decreases v
  {
    match v
    case Object(_, _) => false
    case Array(elems) => forall i :: 0 <= i < |elems| ==> ObjectFree(elems[i])
    case _ => true
  }

  lemma {:induction false} ObjectFreeRenders(lib: HostLib, v: Value)
    requires ObjectFree(v)
    ensures DebugStr(lib, v).Some?
    decreases v
  {
    match v
    case Array(elems) =>
      forall i | 0 <= i < |elems|
        ensures DebugStr(lib, elems[i]).Some?
      {
        ObjectFreeRenders(lib, elems[i]);
      }
      ArrayRendering(lib, elems);
    case _ =>
  }

  // ---------------------------------------------------------------------
  // Sample renderings

  /** A string is quoted without escaping; a plain object is shown through
      `JSON.stringify`, or as "Object" when that throws; any other class is
      shown by its name alone. */
  lemma Samples(lib: HostLib, id: nat)
    ensures DebugStr(lib, Str(Lit("hi"))) == Some(Lit("\"hi\""))
    ensures DebugStr(lib, Str(Lit("a\"b"))) == Some(Lit("\"a\"b\""))
    ensures DebugStr(lib, Symbol(None)) == Some(Lit("Symbol"))
    ensures DebugStr(lib, Symbol(Some([]))) == Some(Lit("Symbol()"))
    ensures DebugStr(lib, Function(Some([]), None)) == Some(Lit("Function"))
    ensures lib.json(id).None? ==> DebugStr(lib, Object(Lit("Object"), id)) == Some(Lit("Object"))
    ensures lib.json(id) == Some(Lit("{}")) ==> DebugStr(lib, Object(Lit("Object"), id)) == Some(Lit("Object({})"))
    ensures DebugStr(lib, Object(Lit("Map"), id)) == Some(Lit("Map"))
    ensures DebugStr(lib, Object([], id)) == None
  {
    assert Lit("\"") + Lit("hi") + Lit("\"") == Lit("\"hi\"");
    assert Lit("\"") + Lit("a\"b") + Lit("\"") == Lit("\"a\"b\"");
    assert Lit("Symbol(") + [] + Lit(")") == Lit("Symbol()");
    assert Lit("Object(") + Lit("{}") + Lit(")") == Lit("Object({})");
    ClassNamePlain(Lit("Object"));
    ClassNamePlain(Lit("Map"));
    assert Lit("Map") != Lit("Object");
  }

  /** `[true, "x"]` renders as `[true, "x"]`. */
  lemma ArraySample(lib: HostLib)
    ensures DebugStr(lib, Array([Bool(true), Str(Lit("x"))])) == Some(Lit("[true, \"x\"]"))
  {
    var elems := [Bool(true), Str(Lit("x"))];
    assert DebugStr(lib, elems[0]) == Some(Lit("true"));
    assert Lit("\"") + Lit("x") + Lit("\"") == Lit("\"x\"");
    assert DebugStr(lib, elems[1]) == Some(Lit("\"x\""));
    ArrayRendering(lib, elems);
    var parts := Rendered(lib, elems);
    assert parts[..1] == [Lit("true")];
    assert Join(parts, Lit(", ")) == Lit("true") + Lit(", ") + Lit("\"x\"");
    assert Lit("[") + (Lit("true") + Lit(", ") + Lit("\"x\"")) + Lit("]") == Lit("[true, \"x\"]");
  }
}
