/** The application's stored properties (class Proper): a string-to-string
    store with defaults, integer properties as decimal text, and component
    bounds saved under the component's class name. */
module Proper {
  import opened JavaLang

  /** The contents of the `java.util.Properties` object. */
  type Store = map<string, string>

  /** `properties.getProperty(name, def)`. */
  function Lookup(store: Store, name: string, def: string): (r: string)
    ensures name in store ==> r == store[name]
    ensures name !in store ==> r == def
  {
    if name in store then store[name] else def
  }

  /** `Integer.parseInt(properties.getProperty(name, "" + def))`; None stands
      for the NumberFormatException of a stored value that is not an int. */
  function LookupInt(store: Store, name: string, def: Int32): (r: Option<Int32>)
  {
    ParseInt(Lookup(store, name, IntToString(def)))
  }

  /** An integer property that was never stored reads as its default. */
  lemma LookupIntAbsent(store: Store, name: string, def: Int32)
    requires name !in store
    ensures LookupInt(store, name, def) == Some(def)
  {
    ParseIntToString(def);
  }

  /** `setProperty(name, int)` followed by `getProperty(name, int)` gives the
      int back, whatever the default. */
  lemma LookupIntStored(store: Store, name: string, v: Int32, def: Int32)
    ensures LookupInt(store[name := IntToString(v)], name, def) == Some(v)
  {
    ParseIntToString(v);
  }

  /** The name of the properties file for an application: the name in lower
      case with the `.properties` suffix. */
  function FileName(appName: string): (r: string)
    ensures |r| == |appName| + 11
    ensures r[|appName|..] == ".properties"
    ensures forall i :: 0 <= i < |appName| ==> !('A' <= r[i] <= 'Z')
    ensures EqualsIgnoreCase(r[..|appName|], appName)
  {
    var lower := ToLowerCase(appName);
    assert (lower + ".properties")[..|appName|] == lower;
    lower + ".properties"
  }

  /** A flag property is stored as "TRUE" or "FALSE". */
  function FlagText(b: bool): string
  {
    if b then "TRUE" else "FALSE"
  }

  /** A flag is read back with `equalsIgnoreCase("TRUE")`. */
  predicate IsTrue(s: string)
  {
    EqualsIgnoreCase(s, "TRUE")
  }

  /** A stored flag reads back as itself, with or without a default. */
  lemma FlagRoundTrip(store: Store, name: string, b: bool, def: string)
    ensures IsTrue(Lookup(store[name := FlagText(b)], name, def)) == b
  {
    if !b {
      assert !CharsEqualIgnoreCase('F', 'T');
    }
  }

  /** A flag that was never stored reads as true exactly when the default does;
      "tRuE" and the like count as true. */
  lemma FlagDefault(store: Store, name: string)
    requires name !in store
    ensures IsTrue(Lookup(store, name, "TRUE")) && !IsTrue(Lookup(store, name, "FALSE"))
    ensures IsTrue("tRuE")
  {
    assert |"FALSE"| != |"TRUE"|;
  }

  // ---------------------------------------------------------------------
  // Component bounds: saveBounds(Component) / setBounds(Component, ...)
  // ---------------------------------------------------------------------

  /** A component's location and size. */
  datatype Bounds = Bounds(x: Int32, y: Int32, w: Int32, h: Int32)

  /** The key of one coordinate of the component whose class is `name`. */
  function Key(name: string, suffix: string): string
  {
    name + suffix
  }

  /** The four coordinate keys (and the frame state key) of a name differ. */
  lemma KeysDistinct(name: string)
    ensures Key(name, "_X") != Key(name, "_Y") && Key(name, "_X") != Key(name, "_W")
    ensures Key(name, "_X") != Key(name, "_H") && Key(name, "_Y") != Key(name, "_W")
    ensures Key(name, "_Y") != Key(name, "_H") && Key(name, "_W") != Key(name, "_H")
    ensures Key(name, "_X") != Key(name, "_STATE") && Key(name, "_Y") != Key(name, "_STATE")
    ensures Key(name, "_W") != Key(name, "_STATE") && Key(name, "_H") != Key(name, "_STATE")
  {
    assert Key(name, "_X")[|name| + 1] == 'X';
    assert Key(name, "_Y")[|name| + 1] == 'Y';
    assert Key(name, "_W")[|name| + 1] == 'W';
    assert Key(name, "_H")[|name| + 1] == 'H';
    assert Key(name, "_STATE")[|name| + 1] == 'S';
  }

  /** The store after saveBounds: the four coordinates as decimal text. */
  function WithBounds(store: Store, name: string, b: Bounds): Store
  {
    store[Key(name, "_X") := IntToString(b.x)][Key(name, "_Y") := IntToString(b.y)]
         [Key(name, "_W") := IntToString(b.w)][Key(name, "_H") := IntToString(b.h)]
  }

  /** A component's location, as passed to `setLocation`. */
  datatype Location = Location(x: Int32, y: Int32)

  /** What setBounds(Component, dx, dy, dw, dh) moves the component to, before
      it reads the size: x and y read with their defaults; None when either
      stored value is not an int, and then the component is not moved. */
  function RestoreLocation(store: Store, name: string, def: Bounds): Option<Location>
  {
    var x := LookupInt(store, Key(name, "_X"), def.x);
    var y := LookupInt(store, Key(name, "_Y"), def.y);
    if x.Some? && y.Some? then Some(Location(x.value, y.value)) else None
  }

  /** The bounds setBounds(Component, dx, dy, dw, dh) gives the component: each
      coordinate read with its default, in the order x, y, w, h; None when any
      stored value is not an int. */
  function RestoreBounds(store: Store, name: string, def: Bounds): Option<Bounds>
  {
    var x := LookupInt(store, Key(name, "_X"), def.x);
    var y := LookupInt(store, Key(name, "_Y"), def.y);
    var w := LookupInt(store, Key(name, "_W"), def.w);
    var h := LookupInt(store, Key(name, "_H"), def.h);
    if x.Some? && y.Some? && w.Some? && h.Some? then Some(Bounds(x.value, y.value, w.value, h.value))
    else None
  }

  /** saveBounds then setBounds restores the saved bounds, whatever the defaults. */
  lemma BoundsRoundTrip(store: Store, name: string, b: Bounds, def: Bounds)
    ensures RestoreBounds(WithBounds(store, name, b), name, def) == Some(b)
  {
    KeysDistinct(name);
    var m := WithBounds(store, name, b);
    ParseIntToString(b.x);
    ParseIntToString(b.y);
    ParseIntToString(b.w);
    ParseIntToString(b.h);
    assert m[Key(name, "_X")] == IntToString(b.x);
    assert m[Key(name, "_Y")] == IntToString(b.y);
    assert m[Key(name, "_W")] == IntToString(b.w);
  }

  /** The move comes first: full bounds imply the location was set to their
      (x, y), and a location that does not parse means no bounds either. A
      size that does not parse after a good location leaves the component
      moved but not resized. */
  lemma LocationBeforeSize(store: Store, name: string, def: Bounds)
    ensures RestoreBounds(store, name, def).Some? ==>
      RestoreLocation(store, name, def) == Some(Location(RestoreBounds(store, name, def).value.x,
                                                         RestoreBounds(store, name, def).value.y))
    ensures RestoreLocation(store, name, def).None? ==> RestoreBounds(store, name, def).None?
    ensures RestoreLocation(store, name, def).Some? && RestoreBounds(store, name, def).None? <==>
      RestoreLocation(store, name, def).Some? &&
      (LookupInt(store, Key(name, "_W"), def.w).None? || LookupInt(store, Key(name, "_H"), def.h).None?)
  {
  }

  /** With `_X` = "10", `_Y` = "20" and `_W` = "abc", the component is moved to
      (10, 20) and then the size read fails. */
  lemma MovedBeforeBadSize(name: string, def: Bounds)
    ensures var store := map[Key(name, "_X") := "10", Key(name, "_Y") := "20", Key(name, "_W") := "abc"];
      RestoreLocation(store, name, def) == Some(Location(10, 20)) &&
      RestoreBounds(store, name, def).None?
  {
    KeysDistinct(name);
    var store := map[Key(name, "_X") := "10", Key(name, "_Y") := "20", Key(name, "_W") := "abc"];
    ParseIntToString(10);
    ParseIntToString(20);
    assert IntToString(10) == "10";
    assert IntToString(20) == "20";
    assert store[Key(name, "_W")] == "abc";
    assert !IsDigit('a');
  }

  /** A component whose bounds were never saved is placed at the defaults. */
  lemma BoundsDefault(store: Store, name: string, def: Bounds)
    requires Key(name, "_X") !in store && Key(name, "_Y") !in store
    requires Key(name, "_W") !in store && Key(name, "_H") !in store
    ensures RestoreBounds(store, name, def) == Some(def)
  {
    LookupIntAbsent(store, Key(name, "_X"), def.x);
    LookupIntAbsent(store, Key(name, "_Y"), def.y);
    LookupIntAbsent(store, Key(name, "_W"), def.w);
    LookupIntAbsent(store, Key(name, "_H"), def.h);
  }

  // ---------------------------------------------------------------------
  // The main frame: saveBounds(JFrame) / setBounds(JFrame)
  // ---------------------------------------------------------------------

  const INSET: int := 40
  /** `JFrame.NORMAL` and `JFrame.MAXIMIZED_BOTH`. */
  const NORMAL: Int32 := 0
  const MAXIMIZED_BOTH: Int32 := 6

  /** The screen size reported by the toolkit. */
  datatype Screen = Screen(width: Int32, height: Int32)

  /** The default frame bounds: INSET from the left and top, INSET * 2 narrower
      and INSET * 3 lower than the screen (Java int arithmetic). */
  function FrameDefaults(screen: Screen): Bounds
  {
    Bounds(INSET, INSET, Wrap(screen.width - INSET * 2), Wrap(screen.height - INSET * 3))
  }

  /** Where setBounds(JFrame) puts the frame: its bounds, and whether it is
      also maximized by `setExtendedState(MAXIMIZED_BOTH)`. */
  datatype Placement = Placement(bounds: Bounds, maximized: bool)

  /** Saved bounds are rejected when the origin is off the screen or the frame
      is narrower or lower than INSET. */
  predicate OnScreen(b: Bounds, screen: Screen)
  {
    0 <= b.x < screen.width && 0 <= b.y < screen.height && b.w >= INSET && b.h >= INSET
  }

  /** The placement that setBounds(JFrame) computes from the store: None when
      a stored value is not an int. */
  function FramePlacement(store: Store, name: string, screen: Screen): (r: Option<Placement>)
  {
    var d := FrameDefaults(screen);
    var b := RestoreBounds(store, name, d);
    var st := LookupInt(store, Key(name, "_STATE"), NORMAL);
    if b.None? || st.None? then None
    else if st.value == MAXIMIZED_BOTH then Some(Placement(d, true))
    else if !OnScreen(b.value, screen) then Some(Placement(d, false))
    else Some(Placement(b.value, false))
  }

  /** The store after saveBounds(JFrame): the bounds and the extended state. */
  function WithFrameBounds(store: Store, name: string, b: Bounds, state: Int32): Store
  {
    WithBounds(store, name, b)[Key(name, "_STATE") := IntToString(state)]
  }

  lemma FrameBoundsReadBack(store: Store, name: string, b: Bounds, state: Int32, def: Bounds)
    ensures RestoreBounds(WithFrameBounds(store, name, b, state), name, def) == Some(b)
    ensures LookupInt(WithFrameBounds(store, name, b, state), Key(name, "_STATE"), NORMAL) == Some(state)
  {
    KeysDistinct(name);
    var m := WithBounds(store, name, b);
    BoundsRoundTrip(store, name, b, def);
    assert RestoreBounds(m[Key(name, "_STATE") := IntToString(state)], name, def) == RestoreBounds(m, name, def);
    ParseIntToString(state);
  }

  /** The fallback rule of setBounds(JFrame) after saveBounds(JFrame): a
      maximized frame is maximized again over the default bounds; otherwise
      the saved bounds are used exactly when they are on the screen, and the
      defaults are used in their place. */
  lemma FrameRoundTrip(store: Store, name: string, b: Bounds, state: Int32, screen: Screen)
    ensures var r := FramePlacement(WithFrameBounds(store, name, b, state), name, screen);
      r == if state == MAXIMIZED_BOTH then Some(Placement(FrameDefaults(screen), true))
           else if OnScreen(b, screen) then Some(Placement(b, false))
           else Some(Placement(FrameDefaults(screen), false))
  {
    FrameBoundsReadBack(store, name, b, state, FrameDefaults(screen));
  }

  /** On first launch, with nothing saved for the frame, it is placed at the
      default bounds and not maximized, whatever the screen size. */
  lemma FrameFirstLaunch(store: Store, name: string, screen: Screen)
    requires Key(name, "_X") !in store && Key(name, "_Y") !in store
    requires Key(name, "_W") !in store && Key(name, "_H") !in store
    requires Key(name, "_STATE") !in store
    ensures FramePlacement(store, name, screen) == Some(Placement(FrameDefaults(screen), false))
  {
    BoundsDefault(store, name, FrameDefaults(screen));
    LookupIntAbsent(store, Key(name, "_STATE"), NORMAL);
  }

  // ---------------------------------------------------------------------
  // The static state of Proper
  // ---------------------------------------------------------------------

  /** Proper's static fields: the properties and the name of their file. The
      file system is not modelled: `read` is given what the file held, and
      `save` is left out. */
  class Properties {
    var store: Store
    var fileName: string

    constructor ()
      ensures store == map[] && fileName == "application.properties"
    {
      store := map[];
      fileName := "application.properties";
    }

    /** read(name): `loaded` is the content of the file, None when it cannot
        be opened or parsed (the exception is printed and ignored). Loading
        adds the file's entries over the existing ones. */
    method Read(name: string, loaded: Option<Store>)
      modifies this
      ensures fileName == FileName(name)
      ensures store == if loaded.Some? then old(store) + loaded.value else old(store)
    {
      fileName := FileName(name);
      if loaded.Some? {
        store := store + loaded.value;
      }
    }

    method SetProperty(name: string, value: string)
      modifies this
      ensures store == old(store)[name := value] && fileName == old(fileName)
    {
      store := store[name := value];
    }

    method SetIntProperty(name: string, value: Int32)
      modifies this
      ensures store == old(store)[name := IntToString(value)] && fileName == old(fileName)
    {
      SetProperty(name, IntToString(value));
    }

    function GetProperty(name: string, def: string): string
      reads this
    {
      Lookup(store, name, def)
    }

    function GetIntProperty(name: string, def: Int32): Option<Int32>
      reads this
    {
      LookupInt(store, name, def)
    }

    /** saveBounds(Component) for the component whose class name is `name`. */
    method SaveBounds(name: string, b: Bounds)
      modifies this
      ensures store == WithBounds(old(store), name, b) && fileName == old(fileName)
    {
      SetIntProperty(Key(name, "_X"), b.x);
      SetIntProperty(Key(name, "_Y"), b.y);
      SetIntProperty(Key(name, "_W"), b.w);
      SetIntProperty(Key(name, "_H"), b.h);
    }

    /** setBounds(Component, dx, dy, dw, dh): `loc` is what setLocation
        receives, and `r` the bounds once setSize has run too; None marks the
        NumberFormatException that stops the method at that point. */
    method SetBounds(name: string, def: Bounds) returns (loc: Option<Location>, r: Option<Bounds>)
      ensures loc == RestoreLocation(store, name, def)
      ensures r == RestoreBounds(store, name, def)
      ensures r.Some? ==> loc == Some(Location(r.value.x, r.value.y))
      ensures loc.Some? && Key(name, "_X") !in store ==> loc.value.x == def.x
      ensures loc.Some? && Key(name, "_Y") !in store ==> loc.value.y == def.y
      ensures r.Some? && Key(name, "_X") !in store ==> r.value.x == def.x
      ensures r.Some? && Key(name, "_Y") !in store ==> r.value.y == def.y
      ensures r.Some? && Key(name, "_W") !in store ==> r.value.w == def.w
      ensures r.Some? && Key(name, "_H") !in store ==> r.value.h == def.h
    {
      var x := GetIntProperty(Key(name, "_X"), def.x);
      var y := GetIntProperty(Key(name, "_Y"), def.y);
      if x.Some? && y.Some? {
        loc := Some(Location(x.value, y.value));
      } else {
        loc := None;
      }
      var w := GetIntProperty(Key(name, "_W"), def.w);
      var h := GetIntProperty(Key(name, "_H"), def.h);
      if loc.Some? && w.Some? && h.Some? {
        r := Some(Bounds(loc.value.x, loc.value.y, w.value, h.value));
      } else {
        r := None;
      }
      if Key(name, "_X") !in store {
        LookupIntAbsent(store, Key(name, "_X"), def.x);
      }
      if Key(name, "_Y") !in store {
        LookupIntAbsent(store, Key(name, "_Y"), def.y);
      }
      if Key(name, "_W") !in store {
        LookupIntAbsent(store, Key(name, "_W"), def.w);
      }
      if Key(name, "_H") !in store {
        LookupIntAbsent(store, Key(name, "_H"), def.h);
      }
    }

    /** saveBounds(JFrame): the bounds and the extended state. */
    method SaveFrameBounds(name: string, b: Bounds, state: Int32)
      modifies this
      ensures store == WithFrameBounds(old(store), name, b, state) && fileName == old(fileName)
    {
      SaveBounds(name, b);
      SetIntProperty(Key(name, "_STATE"), state);
    }

    /** setBounds(JFrame): where the main frame goes. */
    method SetFrameBounds(name: string, screen: Screen) returns (r: Option<Placement>)
      ensures r == FramePlacement(store, name, screen)
      ensures r.Some? && !r.value.maximized && r.value.bounds != FrameDefaults(screen) ==>
        OnScreen(r.value.bounds, screen)
    {
      var d := FrameDefaults(screen);
      var x := GetIntProperty(Key(name, "_X"), d.x);
      var y := GetIntProperty(Key(name, "_Y"), d.y);
      var w := GetIntProperty(Key(name, "_W"), d.w);
      var h := GetIntProperty(Key(name, "_H"), d.h);
      var st := GetIntProperty(Key(name, "_STATE"), NORMAL);
      if x.None? || y.None? || w.None? || h.None? || st.None? {
        r := None;
      } else if st.value == MAXIMIZED_BOTH {
        r := Some(Placement(d, true));
      } else {
        var b := Bounds(x.value, y.value, w.value, h.value);
        if !OnScreen(b, screen) {
          b := d;
        }
        r := Some(Placement(b, false));
      }
    }
  }
}
