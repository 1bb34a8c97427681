/** The site header (src/components/Layout/Header.tsx): which navigation
    link is highlighted for the current path, and the mobile menu flag. */
module Header {
  import opened Text

  /** A top-level navigation entry. */
  datatype NavItem = NavItem(name: string, href: string)

  /** The top-level entries, in display order. */
  const Navigation := [
    NavItem("首页", "/"),
    NavItem("产品中心", "/products"),
    NavItem("行业应用", "/applications"),
    NavItem("关于我们", "/about"),
    NavItem("新闻动态", "/news"),
    NavItem("下载专区", "/downloads"),
    NavItem("样品申请", "/sample-request")
  ]

  /** The links of the products submenu. */
  const ProductsSubmenu := [
    NavItem("产品分类", "/products/categories"),
    NavItem("产品列表", "/products")
  ]

  /** `isActive(href)`: the home link only on the home path itself; any
      other link on every path that starts with its href. */
  predicate IsActive(pathname: string, href: string) {
    if href == "/" then pathname == "/" else StartsWith(pathname, href)
  }

  /** The home link is active exactly on '/', and any other link exactly
      when the path continues its href character by character — a plain
      prefix, not a path segment, so '/productsXYZ' lights up '/products'. */
  lemma IsActiveMeaning(pathname: string, href: string)
    ensures href == "/" ==> (IsActive(pathname, href) <==> pathname == "/")
    ensures href != "/" ==> (IsActive(pathname, href) <==> exists rest :: pathname == href + rest)
    ensures IsActive("/productsXYZ", "/products") && IsActive("/products/categories", "/products")
    ensures !IsActive("/news", "/")
  {
    if href != "/" && IsActive(pathname, href) {
      assert pathname == href + pathname[|href|..];
    }
    assert "/productsXYZ"[..9] == "/products";
    assert "/products/categories"[..9] == "/products";
  }

  /** Two prefixes of one string: the shorter is a prefix of the longer. */
  lemma PrefixesNest(s: string, a: string, b: string)
    ensures StartsWith(s, a) && StartsWith(s, b) && |a| <= |b| ==> StartsWith(b, a)
  {
    if StartsWith(s, a) && StartsWith(s, b) && |a| <= |b| {
      assert b[..|a|] == s[..|b|][..|a|];
    }
  }

  /** No top-level href other than '/' starts with another. */
  lemma HrefsDoNotNest(i: nat, j: nat)
    requires 1 <= i < |Navigation| && 1 <= j < |Navigation| && i != j
    requires |Navigation[i].href| <= |Navigation[j].href|
    ensures !StartsWith(Navigation[j].href, Navigation[i].href)
  {
    var a := Navigation[i].href;
    var b := Navigation[j].href;
    assert a[1] != b[1] || a[2] != b[2];
    assert b[..|a|][1] == b[1] && b[..|a|][2] == b[2];
  }

  /** Whatever the path, at most one top-level entry is highlighted. */
  lemma AtMostOneActive(pathname: string, i: nat, j: nat)
    requires i < |Navigation| && j < |Navigation|
    ensures IsActive(pathname, Navigation[i].href) && IsActive(pathname, Navigation[j].href) ==> i == j
  {
    if i != j && i != 0 && j != 0 {
      if |Navigation[i].href| <= |Navigation[j].href| {
        PrefixesNest(pathname, Navigation[i].href, Navigation[j].href);
        HrefsDoNotNest(i, j);
      } else {
        PrefixesNest(pathname, Navigation[j].href, Navigation[i].href);
        HrefsDoNotNest(j, i);
      }
    } else if i != j {
      var k := if i == 0 then j else i;
      assert |Navigation[k].href| > 1;
    }
  }

  /** What can happen to the mobile menu. */
  datatype MenuEvent = ToggleButton | LinkClicked

  /** The menu starts closed. */
  const InitialMenuOpen := false

  /** The button flips the flag; any mobile link (top level or submenu) closes the menu. */
  function OnMenuEvent(open: bool, e: MenuEvent): (next: bool)
    ensures e == ToggleButton ==> next != open
    ensures e == LinkClicked ==> !next
  {
    match e
    case ToggleButton => !open
    case LinkClicked => false
  }

  /** The flag after a sequence of events from a given state. */
  function RunMenu(open: bool, events: seq<MenuEvent>): bool
    decreases |events|
  {
    if events == [] then open else RunMenu(OnMenuEvent(open, events[0]), events[1..])
  }

  /** How many button presses follow the last link click. */
  function PressesSinceLink(events: seq<MenuEvent>): nat
    decreases |events|
  {
    if events == [] then 0
    else if events[|events| - 1] == LinkClicked then 0
    else PressesSinceLink(events[..|events| - 1]) + 1
  }

  /** Running one more event is applying it to the flag so far. */
  lemma {:induction false} RunMenuSnoc(open: bool, events: seq<MenuEvent>, e: MenuEvent)
    ensures RunMenu(open, events + [e]) == OnMenuEvent(RunMenu(open, events), e)
    decreases |events|
  {
    if events != [] {
      assert (events + [e])[1..] == events[1..] + [e];
      RunMenuSnoc(OnMenuEvent(open, events[0]), events[1..], e);
    }
  }

  /** From the closed start, the menu is open exactly when an odd number of
      button presses followed the last link click (or the start). */
  lemma {:induction false} MenuOpenParity(events: seq<MenuEvent>)
    ensures RunMenu(InitialMenuOpen, events) <==> PressesSinceLink(events) % 2 == 1
    decreases |events|
  {
    if events != [] {
      var init := events[..|events| - 1];
      var e := events[|events| - 1];
      assert events == init + [e];
      RunMenuSnoc(InitialMenuOpen, init, e);
      MenuOpenParity(init);
    }
  }
}
