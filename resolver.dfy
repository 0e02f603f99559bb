/**
 * The layout resolver of yuicat.py: each asset type has a physical
 * directory (where the files are on disk) and a logical directory (how the
 * HTML refers to them), and file names are moved between the two by
 * replacing the directory and keeping the base name.
 */
module Resolver {
  import opened Wrappers
  import opened Paths

  /** The asset types yuicat.py knows how to bundle. */
  datatype FileType = Css | Js {
    /** The type's name, which is also its file extension. */
    function Name(): (r: string)
      ensures |r| >= 2 && '/' !in r && '"' !in r && '.' !in r
    {
      match this
      case Css => "css"
      case Js => "js"
    }
  }

  datatype Root = Root(physical: string, logical: string)

  /** The layout configuration: one root per asset type and the HTML directory. */
  datatype Layout = Layout(css: Root, js: Root, html: string) {
    function Of(t: FileType): Root {
      match t
      case Css => css
      case Js => js
    }
  }

  /** The layout used when no layout file is given. */
  const DefaultLayout := Layout(Root("static/stylesheets", "/stylesheets"), Root("static/js", "/js"), "templates")

  datatype LayoutError = NotLogicallyRooted(fileName: string) | NotPhysicallyRooted(fileName: string)

  /**
   * _logical_to_physical: accepted exactly when the logical root is a string
   * prefix of the file's directory; the result is the physical root joined
   * with the base name, so any subdirectory below the root is dropped.
   */
  function LogicalToPhysical(layout: Layout, fileName: string, t: FileType): (r: Result<string, LayoutError>)
    ensures r.Ok? <==> layout.Of(t).logical <= Dirname(fileName)
    ensures r.Ok? ==> r.value == Join(layout.Of(t).physical, Basename(fileName))
    ensures r.Err? ==> r.error == NotLogicallyRooted(fileName)
  {
    var (dirName, baseName) := Split(fileName);
    var root := layout.Of(t);
    CommonPrefixIsPrefix(root.logical, dirName);
    if CommonPrefix(root.logical, dirName) != root.logical then Err(NotLogicallyRooted(fileName))
    else Ok(Join(root.physical, baseName))
  }

  /** _physical_to_logical: the same substitution in the other direction. */
  function PhysicalToLogical(layout: Layout, fileName: string, t: FileType): (r: Result<string, LayoutError>)
    ensures r.Ok? <==> layout.Of(t).physical <= Dirname(fileName)
    ensures r.Ok? ==> r.value == Join(layout.Of(t).logical, Basename(fileName))
    ensures r.Err? ==> r.error == NotPhysicallyRooted(fileName)
  {
    var (dirName, baseName) := Split(fileName);
    var root := layout.Of(t);
    CommonPrefixIsPrefix(root.physical, dirName);
    if CommonPrefix(root.physical, dirName) != root.physical then Err(NotPhysicallyRooted(fileName))
    else Ok(Join(root.logical, baseName))
  }

  /**
   * Mapping an accepted logical name to its physical location and back gives
   * the logical root joined with the base name.
   */
  lemma LogicalRoundTrip(layout: Layout, fileName: string, t: FileType)
    requires Canonical(layout.Of(t).physical)
    requires LogicalToPhysical(layout, fileName, t).Ok?
    ensures PhysicalToLogical(layout, LogicalToPhysical(layout, fileName, t).value, t)
            == Ok(Join(layout.Of(t).logical, Basename(fileName)))
  {
    var root := layout.Of(t);
    SplitJoin(root.physical, Basename(fileName));
  }

  /**
   * The round trip is the identity on a name that is its base name joined
   * directly below the logical root.
   */
  lemma LogicalRoundTripIdentity(layout: Layout, fileName: string, t: FileType)
    requires Canonical(layout.Of(t).physical) && Canonical(layout.Of(t).logical)
    requires fileName == Join(layout.Of(t).logical, Basename(fileName))
    ensures LogicalToPhysical(layout, fileName, t).Ok?
    ensures PhysicalToLogical(layout, LogicalToPhysical(layout, fileName, t).value, t) == Ok(fileName)
  {
    SplitJoin(layout.Of(t).logical, Basename(fileName));
    LogicalRoundTrip(layout, fileName, t);
  }

  /** The symmetric round trip, from a physical name to its logical one and back. */
  lemma PhysicalRoundTrip(layout: Layout, fileName: string, t: FileType)
    requires Canonical(layout.Of(t).logical)
    requires PhysicalToLogical(layout, fileName, t).Ok?
    ensures LogicalToPhysical(layout, PhysicalToLogical(layout, fileName, t).value, t)
            == Ok(Join(layout.Of(t).physical, Basename(fileName)))
  {
    SplitJoin(layout.Of(t).logical, Basename(fileName));
  }

  /** A name joined directly below a directory that starts with the logical root is accepted. */
  lemma LogicalAccepted(layout: Layout, t: FileType, d: string, b: string)
    requires Canonical(d) && '/' !in b && layout.Of(t).logical <= d
    ensures LogicalToPhysical(layout, Join(d, b), t) == Ok(Join(layout.Of(t).physical, b))
  {
    SplitJoin(d, b);
  }

  /** A name joined directly below a directory that starts with the physical root is accepted. */
  lemma PhysicalAccepted(layout: Layout, t: FileType, d: string, b: string)
    requires Canonical(d) && '/' !in b && layout.Of(t).physical <= d
    ensures PhysicalToLogical(layout, Join(d, b), t) == Ok(Join(layout.Of(t).logical, b))
  {
    SplitJoin(d, b);
  }

  /**
   * The built-in layout's roots have no trailing separator, so every name it
   * accepts comes back from the round trip as its base name below the
   * logical root.
   */
  lemma DefaultLayoutRoundTrip(fileName: string, t: FileType)
    requires LogicalToPhysical(DefaultLayout, fileName, t).Ok?
    ensures PhysicalToLogical(DefaultLayout, LogicalToPhysical(DefaultLayout, fileName, t).value, t)
            == Ok(Join(DefaultLayout.Of(t).logical, Basename(fileName)))
  {
    var root := DefaultLayout.Of(t);
    assert root.physical[|root.physical| - 1] != '/';
    LogicalRoundTrip(DefaultLayout, fileName, t);
  }

  /** With the default layout, "static/js/app.js" is known to the HTML as "/js/app.js". */
  lemma DefaultScriptToLogical()
    ensures PhysicalToLogical(DefaultLayout, "static/js/app.js", Js) == Ok("/js/app.js")
  {
    var d, b := "static/js", "app.js";
    assert Join(d, b) == "static/js/app.js" && Join("/js", b) == "/js/app.js";
    assert d <= d && Canonical(d);
    PhysicalAccepted(DefaultLayout, Js, d, b);
  }

  /** With the default layout, a script in a subdirectory loses that subdirectory. */
  lemma SubdirectoryDropped()
    ensures LogicalToPhysical(DefaultLayout, "/js/lib/app.js", Js) == Ok("static/js/app.js")
    ensures PhysicalToLogical(DefaultLayout, "static/js/app.js", Js) == Ok("/js/app.js")
  {
    var d, b := "/js/lib", "app.js";
    assert Join(d, b) == "/js/lib/app.js" && Join("static/js", b) == "static/js/app.js";
    assert "/js" <= d && Canonical(d);
    LogicalAccepted(DefaultLayout, Js, d, b);
    DefaultScriptToLogical();
  }

  /**
   * The root test compares strings, not path components: a sibling directory
   * whose name merely starts with the logical root is accepted.
   */
  lemma SiblingDirectoryAccepted()
    ensures LogicalToPhysical(DefaultLayout, "/jsx/app.js", Js) == Ok("static/js/app.js")
  {
    var d, b := "/jsx", "app.js";
    assert Join(d, b) == "/jsx/app.js" && Join("static/js", b) == "static/js/app.js";
    assert "/js" <= d && Canonical(d);
    LogicalAccepted(DefaultLayout, Js, d, b);
  }

  /** os.path.split drops a repeated separator from the head. */
  lemma SplitRepeatedSeparator()
    ensures Split("/js//app.js") == ("/js", "app.js")
  {
    var p := "/js//app.js";
    assert RFind(p, '/') == 4 by {
      assert p[4] == '/';
      assert forall k :: 4 < k < |p| ==> p[k] != '/';
    }
    var head := "/js//";
    assert p[..5] == head && p[5..] == "app.js";
    assert !AllSlashes(head) by { assert head[1] == 'j'; }
    assert RStripSlashes(head) == "/js" by {
      assert head[..4] == "/js/";
      assert "/js/"[..3] == "/js";
    }
  }

  /**
   * Because of that, a name whose directory equals the logical root does not
   * always come back unchanged from the round trip.
   */
  lemma RepeatedSeparatorNormalised()
    ensures Dirname("/js//app.js") == "/js"
    ensures LogicalToPhysical(DefaultLayout, "/js//app.js", Js) == Ok("static/js/app.js")
    ensures PhysicalToLogical(DefaultLayout, "static/js/app.js", Js) == Ok("/js/app.js")
  {
    SplitRepeatedSeparator();
    assert "/js" <= "/js";
    assert "static/js/app.js" == Join("static/js", "app.js");
    DefaultScriptToLogical();
  }

  /** A name joined directly below a directory that does not start with the logical root is rejected. */
  lemma LogicalRejected(layout: Layout, t: FileType, d: string, b: string)
    requires Canonical(d) && '/' !in b && !(layout.Of(t).logical <= d)
    ensures LogicalToPhysical(layout, Join(d, b), t) == Err(NotLogicallyRooted(Join(d, b)))
  {
    SplitJoin(d, b);
  }

  /** A name joined directly below a directory that does not start with the physical root is rejected. */
  lemma PhysicalRejected(layout: Layout, t: FileType, d: string, b: string)
    requires Canonical(d) && '/' !in b && !(layout.Of(t).physical <= d)
    ensures PhysicalToLogical(layout, Join(d, b), t) == Err(NotPhysicallyRooted(Join(d, b)))
  {
    SplitJoin(d, b);
  }

  /**
   * A physical root written with a trailing separator breaks the round trip:
   * "static/js/" accepts "/js/a.js" as "static/js/a.js", then rejects that
   * file, because the directory os.path.split returns never ends in a
   * separator.
   */
  lemma PhysicalRootWithSeparator()
    ensures var layout := Layout(DefaultLayout.css, Root("static/js/", "/js"), DefaultLayout.html);
      LogicalToPhysical(layout, "/js/a.js", Js) == Ok("static/js/a.js")
      && PhysicalToLogical(layout, "static/js/a.js", Js) == Err(NotPhysicallyRooted("static/js/a.js"))
  {
    var b, l, p, ps := "a.js", "/js", "static/js", "static/js/";
    var layout := Layout(DefaultLayout.css, Root(ps, l), DefaultLayout.html);
    assert Join(l, b) == "/js/a.js" && Join(ps, b) == "static/js/a.js" && Join(p, b) == "static/js/a.js";
    assert l <= l && Canonical(l) && Canonical(p);
    LogicalAccepted(layout, Js, l, b);
    assert !(ps <= p) by { assert |ps| > |p|; }
    PhysicalRejected(layout, Js, p, b);
  }

  /** A logical root written with a trailing separator rejects a file directly below it. */
  lemma LogicalRootWithSeparator()
    ensures var layout := Layout(DefaultLayout.css, Root("static/js", "/js/"), DefaultLayout.html);
      LogicalToPhysical(layout, "/js/a.js", Js) == Err(NotLogicallyRooted("/js/a.js"))
  {
    var b, l, ls := "a.js", "/js", "/js/";
    var layout := Layout(DefaultLayout.css, Root("static/js", ls), DefaultLayout.html);
    assert Join(l, b) == "/js/a.js" && Canonical(l);
    assert !(ls <= l) by { assert |ls| > |l|; }
    LogicalRejected(layout, Js, l, b);
  }
}
