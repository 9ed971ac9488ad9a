/** The portlet base contract (`assentio/apps/blog/base.py`) and the slot
    records portlets hang from (`assentio/apps/blog/slots.py`).

    A portlet variant is a Python subclass of `BasePortlet`; here it is a
    `Variant` value carrying the class name and whether the class overrides
    the render hook `get_template`. Everything the base class derives from
    the class name (the type tag, the table name, the name of the slot's
    back-reference) is a function of that name.
 */
module Portlets {
  import opened Wrappers
  import opened Seqs
  import Text
  import Models

  /** A portlet class: its name and whether it renders its own template. */
  datatype Variant = Variant(className: string, rendersTemplate: bool)

  /** The abstract base class itself. */
  const BaseVariant: Variant := Variant("BasePortlet", false)

  /** The built-in text portlet, which renders its body through a template. */
  const TextPortletVariant: Variant := Variant("TextPortlet", true)

  datatype Slot = Slot(id: int, name: string, description: Option<string>)

  datatype Portlet = Portlet(
    id: Option<int>,
    variant: Variant,
    state: string,
    title: Option<string>,
    order: int,
    slotId: Option<int>,
    body: Option<string>)      // the extra column of the text portlet

  /** The type tag: the class name in lower case. */
  function TypeTag(v: Variant): (t: string)
    ensures |t| == |v.className|
    ensures forall i :: 0 <= i < |t| ==> t[i] == Text.LowerChar(v.className[i])
    ensures Text.NoUpper(t)
    ensures Text.NoUpper(v.className) ==> t == v.className
  {
    Text.Lower(v.className)
  }

  /** Instantiating a variant; the base class refuses to be instantiated.
      The new portlet has the column defaults: private, order 1. */
  function NewPortlet(v: Variant): (r: Result<Portlet>)
    ensures r.Err? <==> TypeTag(v) == "baseportlet"
    ensures r.Err? ==> r.error == RuntimeError
    ensures r.Ok? ==> r.value.variant == v && r.value.state == Models.Private && r.value.order == 1
                      && r.value.id.None? && r.value.slotId.None?
  {
    if TypeTag(v) == "baseportlet" then Err(RuntimeError)
    else Ok(Portlet(None, v, Models.Private, None, 1, None, None))
  }

  function SetPortletState(p: Portlet, value: string): (r: Result<Portlet>)
    ensures r.Ok? <==> value in Models.States
    ensures r.Ok? ==> r.value == p.(state := value)
  {
    match Models.ValidateState(value)
    case Ok(v) => Ok(p.(state := v))
    case Err(e) => Err(e)
  }

  /** `'%s' % title`: a missing title prints as `None`. */
  function TitleText(p: Portlet): string
  {
    if p.title.Some? then p.title.value else "None"
  }

  /** The string form `<type "title">`. */
  function Repr(p: Portlet): (r: string)
    ensures |r| == |TypeTag(p.variant)| + |TitleText(p)| + 5
    ensures r[0] == '<' && r[|r| - 2..] == "\">"
  {
    "<" + TypeTag(p.variant) + " \"" + TitleText(p) + "\">"
  }

  /** The index of the first blank in `s`, if any. */
  function FirstBlank(s: string): (r: Option<nat>)
    ensures r.None? <==> ' ' !in s
    ensures r.Some? ==> r.value < |s| && s[r.value] == ' ' && ' ' !in s[..r.value]
  {
    if |s| == 0 then None
    else if s[0] == ' ' then Some(0)
    else
      match FirstBlank(s[1..])
      case None => None
      case Some(i) =>
        assert s[..i + 1] == [s[0]] + s[1..][..i];
        Some(i + 1)
  }

  /** Reads a type tag and a title back out of a string form. */
  function ParseRepr(s: string): Option<(string, string)>
  {
    if |s| < 5 || s[0] != '<' || s[|s| - 2..] != "\">" then None
    else
      match FirstBlank(s)
      case None => None
      case Some(i) =>
        if i + 2 <= |s| - 2 && s[i + 1] == '"' then Some((s[1..i], s[i + 2..|s| - 2])) else None
  }

  /** The string form determines the type tag and the title: a class name has
      no blanks, so the first blank ends the tag whatever the title holds. */
  lemma ReprRoundTrip(p: Portlet)
    requires ' ' !in p.variant.className
    ensures ParseRepr(Repr(p)) == Some((TypeTag(p.variant), TitleText(p)))
  {
    var t := TypeTag(p.variant);
    var s := Repr(p);
    assert ' ' !in t by {
      forall i | 0 <= i < |t| ensures t[i] != ' ' {
        assert p.variant.className[i] != ' ';
      }
    }
    assert s[..|t| + 1] == "<" + t;
    assert s[|t| + 1] == ' ';
    assert FirstBlank(s) == Some(|t| + 1);
    assert s[1..|t| + 1] == t;
    assert s[|t| + 3..|s| - 2] == TitleText(p);
  }

  /** The render hook: a variant without its own template raises
      NotImplementedError; `render` stands for the variant's own template. */
  function GetTemplate(p: Portlet, render: Portlet -> string): (r: Result<string>)
    ensures r.Err? <==> !p.variant.rendersTemplate
    ensures r.Err? ==> r.error == NotImplemented
    ensures r.Ok? ==> r.value == render(p)
  {
    if p.variant.rendersTemplate then Ok(render(p)) else Err(NotImplemented)
  }

  /** Name of the back-reference the variant declares on `PortletSlot`. */
  function BackrefName(v: Variant): string
  {
    "portlet_" + TypeTag(v)
  }

  /** The attribute name the blog looks up on a slot for a registered type. */
  function LookupName(ptype: string): string
  {
    "portlet_" + ptype
  }

  /** The back-reference a variant declares is the one the blog looks up for
      exactly its own type tag and no other. */
  lemma BackrefMatchesLookup(v: Variant, ptype: string)
    ensures BackrefName(v) == LookupName(ptype) <==> TypeTag(v) == ptype
  {
    if BackrefName(v) == LookupName(ptype) {
      assert TypeTag(v) == BackrefName(v)[8..];
      assert ptype == LookupName(ptype)[8..];
    }
  }

  /** Attaching a portlet to a slot. */
  function AttachToSlot(p: Portlet, slot: Slot): (r: Portlet)
    ensures r.slotId == Some(slot.id)
    ensures r.(slotId := p.slotId) == p
  {
    p.(slotId := Some(slot.id))
  }

  /** A portlet reachable through the slot's back-reference named `attr`. */
  predicate InCollection(p: Portlet, slot: Slot, attr: string)
  {
    p.slotId == Some(slot.id) && BackrefName(p.variant) == attr
  }

  /** `getattr(slot, attr)`: the portlets of one variant attached to the slot. */
  function SlotCollection(portlets: seq<Portlet>, slot: Slot, attr: string): (r: seq<Portlet>)
    ensures forall p :: p in r <==> p in portlets && InCollection(p, slot, attr)
  {
    FilterMembers(portlets, p => InCollection(p, slot, attr));
    Filter(portlets, p => InCollection(p, slot, attr))
  }

  /** The tag of a class like `TestPortlet` is `testportlet`, and unlike the
      base class it can be instantiated. */
  lemma TestPortletTag()
    ensures TypeTag(Variant("TestPortlet", false)) == "testportlet"
    ensures NewPortlet(Variant("TestPortlet", false)).Ok?
  {
    var t := Text.Lower("TestPortlet");
    assert t[0] == 't' && t[4] == 'p';
    assert t == "testportlet";
  }

  /** Its string form is `<testportlet "Test Portlet 2">`, from which the
      tag and the title read back. */
  lemma TestPortletRepr()
    ensures var p := Portlet(None, Variant("TestPortlet", false), "private", Some("Test Portlet 2"), 1, None, None);
            Repr(p) == "<" + "testportlet" + " \"" + "Test Portlet 2" + "\">"
            && ParseRepr(Repr(p)) == Some(("testportlet", "Test Portlet 2"))
  {
    var p := Portlet(None, Variant("TestPortlet", false), "private", Some("Test Portlet 2"), 1, None, None);
    TestPortletTag();
    ReprRoundTrip(p);
  }

  lemma BaseTag()
    ensures TypeTag(BaseVariant) == "baseportlet"
    ensures NewPortlet(BaseVariant).Err?
  {
    var t := Text.Lower("BasePortlet");
    assert t[0] == 'b' && t[4] == 'p';
    assert t == "baseportlet";
  }

  lemma TextPortletTag()
    ensures TypeTag(TextPortletVariant) == "textportlet"
  {
    var t := Text.Lower("TextPortlet");
    assert t[0] == 't' && t[4] == 'p';
    assert t == "textportlet";
  }

  /** What the validator guarantees about a portlet: its state is one of the
      declared keys. */
  predicate ValidPortlet(p: Portlet)
  {
    p.state in Models.States
  }

  /** Every portlet that can be instantiated starts valid, and state changes
      and attaching to a slot keep it valid. */
  lemma PortletsStayValid(v: Variant, p: Portlet, value: string, slot: Slot)
    ensures NewPortlet(v).Ok? ==> ValidPortlet(NewPortlet(v).value)
    ensures SetPortletState(p, value).Ok? ==> ValidPortlet(SetPortletState(p, value).value)
    ensures ValidPortlet(p) ==> ValidPortlet(AttachToSlot(p, slot))
  {
  }

  /** A text portlet renders through its template; a class that only
      subclasses the base, like `TestPortlet`, can be instantiated but cannot
      render. */
  lemma RenderingByVariant(render: Portlet -> string)
    ensures NewPortlet(TextPortletVariant).Ok?
    ensures GetTemplate(NewPortlet(TextPortletVariant).value, render)
         == Ok(render(NewPortlet(TextPortletVariant).value))
    ensures NewPortlet(Variant("TestPortlet", false)).Ok?
    ensures GetTemplate(NewPortlet(Variant("TestPortlet", false)).value, render) == Err(NotImplemented)
  {
    TextPortletTag();
    TestPortletTag();
  }
}
