/** The site header: which navigation item is highlighted for the current
    path, and the open/closed state of the mobile menu. */
module Header {
  import opened Js

  datatype NavItem = NavItem(href: string, text: string)

  /** `navItems`, in display order. */
  const NavItems: seq<NavItem> := [
    NavItem("/", "Verificar Notícia"),
    NavItem("/sobre", "Quem Somos"),
    NavItem("/contato", "Contato"),
    NavItem("/doacoes", "Doações")
  ]

  /** `isActivePage`: the root item needs the exact path "/", any other
      item a path that starts with its href. */
  function IsActivePage(pathname: string, href: string): (r: bool)
    ensures r ==> StartsWith(pathname, href)
    ensures pathname == href ==> r
    ensures href == "/" ==> (r <==> pathname == href)
  {
    || (href == "/" && pathname == "/")
    || (href != "/" && StartsWith(pathname, href))
  }

  /** The root item is active on "/" and nowhere else. */
  lemma RootActiveOnlyAtRoot(pathname: string)
    ensures IsActivePage(pathname, "/") <==> pathname == "/"
  {
  }

  /** The test is a plain string prefix, not a path-segment match:
      "/sobrefoo" highlights "/sobre", and so does "/sobre/equipe". */
  lemma PrefixNotSegment()
    ensures IsActivePage("/sobrefoo", "/sobre")
    ensures IsActivePage("/sobre/equipe", "/sobre")
    ensures !IsActivePage("/sobrefoo", "/")
  {
    assert "/sobrefoo"[..6] == "/sobre";
    assert "/sobre/equipe"[..6] == "/sobre";
  }

  /** Any item other than the root is active exactly on the paths that
      start with its href. */
  lemma NonRootActiveIffPrefix(pathname: string, href: string)
    requires href != "/"
    ensures IsActivePage(pathname, href) <==> StartsWith(pathname, href)
  {
  }

  /** No path highlights two items: "/" needs equality, and the other hrefs
      differ in their second character, so none is a prefix of another. */
  lemma {:induction false} AtMostOneActive(pathname: string, i: int, j: int)
    requires 0 <= i < j < |NavItems|
    ensures !(IsActivePage(pathname, NavItems[i].href) && IsActivePage(pathname, NavItems[j].href))
  {
    var a, b := NavItems[i].href, NavItems[j].href;
    if IsActivePage(pathname, b) {
      assert b != "/" && StartsWith(pathname, b);
      assert |pathname| >= |b| >= 6;
      assert pathname[1] == b[1];
      if i == 0 {
        assert pathname != "/";
      } else {
        assert a[1] != b[1];
        assert pathname[..|a|][1] != a[1];
      }
    }
  }

  /** The `isMobileMenuOpen` state cell. */
  class MobileMenu {
    var isOpen: bool

    /** `useState(false)`. */
    constructor ()
      ensures !isOpen && !ShowsNavigation()
    {
      isOpen := false;
    }

    /** The menu button. */
    method Toggle()
      modifies this
      ensures isOpen == !old(isOpen)
      ensures ShowsNavigation() == !old(ShowsNavigation())
    {
      isOpen := !isOpen;
    }

    /** A click on any item of the mobile navigation. */
    method ItemClicked()
      modifies this
      ensures !isOpen && !ShowsNavigation()
    {
      isOpen := false;
    }

    /** The mobile navigation is rendered only while the menu is open. */
    predicate ShowsNavigation()
      reads this
    {
      isOpen
    }
  }
}
