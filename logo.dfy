/**
 * process_logo's vector branch and the logo-file filter of create_badges.
 */
module Logo {
  import opened Wrappers
  import opened Strings
  import opened ShapeTree
  import opened Geometry

  /** An SVG drawing: its shape tree and its intrinsic size in points. */
  datatype Drawing = Drawing(root: Shape, width: real, height: real)

  // ---------------------------------------------------------------- the logo filter

  const LogoExtensions: seq<string> := [".png", ".jpg", ".jpeg", ".gif", ".svg"]

  /** f.lower().endswith(('.png', '.jpg', '.jpeg', '.gif', '.svg')) */
  predicate HasLogoExtension(f: string) {
    exists k :: 0 <= k < |LogoExtensions| && EndsWith(Lower(f), LogoExtensions[k])
  }

  /** logo_path.lower().endswith('.svg'): which branch process_logo takes. */
  predicate IsSvgPath(path: string) {
    EndsWith(Lower(path), ".svg")
  }

  /** The listed names that pass the filter, in listing order. */
  function LogoNames(listing: seq<string>): (r: seq<string>)
    ensures |r| <= |listing|
  {
    if listing == [] then []
    else (if HasLogoExtension(listing[0]) then [listing[0]] else []) + LogoNames(listing[1..])
  }

  /** The list comprehension: each kept name joined to the folder. */
  function LogoFiles(folder: string, listing: seq<string>): seq<string> {
    var names := LogoNames(listing);
    seq(|names|, i requires 0 <= i < |names| => Join(folder, names[i]))
  }

  /** A name is kept exactly when its lower-cased form has one of the five extensions. */
  lemma {:induction false} LogoNamesMembers(listing: seq<string>, f: string)
    ensures f in LogoNames(listing) <==> f in listing && HasLogoExtension(f)
    decreases |listing|
  {
    if listing != [] {
      LogoNamesMembers(listing[1..], f);
      assert listing == [listing[0]] + listing[1..];
    }
  }

  /** The filter keeps the listing order: filtering a concatenation concatenates the results. */
  lemma {:induction false} LogoNamesAppend(a: seq<string>, b: seq<string>)
    ensures LogoNames(a + b) == LogoNames(a) + LogoNames(b)
    decreases |a|
  {
    if a != [] {
      assert (a + b)[1..] == a[1..] + b;
      LogoNamesAppend(a[1..], b);
    } else {
      assert a + b == b;
    }
  }

  /** Case does not matter: a name and its lower-cased form are kept alike; ".SVG" files are SVG. */
  lemma LogoFilterIgnoresCase(f: string)
    ensures HasLogoExtension(f) == HasLogoExtension(Lower(f))
    ensures IsSvgPath(f) ==> HasLogoExtension(f)
    ensures HasLogoExtension("LOGO.PNG") && IsSvgPath("Logo.SVG") && !HasLogoExtension("logo.pdf")
  {
    LowerIdempotent(f);
    if IsSvgPath(f) {
      assert EndsWith(Lower(f), LogoExtensions[4]);
    }
    assert Lower("LOGO.PNG") == "logo.png";
    assert EndsWith(Lower("LOGO.PNG"), LogoExtensions[0]);
    assert Lower("Logo.SVG") == "logo.svg";
    assert Lower("logo.pdf") == "logo.pdf";
  }

  /** The branch taken for a joined logo path depends only on the file name. */
  lemma SvgBranchByName(folder: string, f: string)
    requires |f| >= 4
    ensures IsSvgPath(Join(folder, f)) == IsSvgPath(f)
  {
    var p := Join(folder, f);
    assert p[|p| - |f|..] == f;
    assert Lower(p)[|p| - 4..] == Lower(f)[|f| - 4..];
  }

  /** A name with one of the five extensions has at least four characters. */
  lemma ExtensionLength(f: string)
    requires HasLogoExtension(f)
    ensures |f| >= 4
  {
    var k :| 0 <= k < |LogoExtensions| && EndsWith(Lower(f), LogoExtensions[k]);
  }

  /**
   * The logo list holds the folder joined with each listed name that has a
   * logo extension, and nothing else; each path takes the vector branch of
   * process_logo exactly when its listed name ends in ".svg", in any case.
   */
  lemma LogoFilesChoices(folder: string, listing: seq<string>)
    ensures forall p :: p in LogoFiles(folder, listing) <==>
      exists f :: f in listing && HasLogoExtension(f) && p == Join(folder, f)
    ensures |LogoFiles(folder, listing)| == |LogoNames(listing)|
    ensures forall i :: 0 <= i < |LogoFiles(folder, listing)| ==>
      IsSvgPath(LogoFiles(folder, listing)[i]) == IsSvgPath(LogoNames(listing)[i])
  {
    var names, r := LogoNames(listing), LogoFiles(folder, listing);
    forall p
      ensures p in r <==> exists f :: f in listing && HasLogoExtension(f) && p == Join(folder, f)
    {
      if p in r {
        var i :| 0 <= i < |r| && r[i] == p;
        LogoNamesMembers(listing, names[i]);
        assert names[i] in listing && HasLogoExtension(names[i]) && p == Join(folder, names[i]);
      }
      if exists f :: f in listing && HasLogoExtension(f) && p == Join(folder, f) {
        var f :| f in listing && HasLogoExtension(f) && p == Join(folder, f);
        LogoNamesMembers(listing, f);
        var j :| 0 <= j < |names| && names[j] == f;
        assert r[j] == p;
      }
    }
    forall i | 0 <= i < |r|
      ensures IsSvgPath(r[i]) == IsSvgPath(names[i])
    {
      LogoNamesMembers(listing, names[i]);
      ExtensionLength(names[i]);
      SvgBranchByName(folder, names[i]);
    }
  }

  // ---------------------------------------------------------------- the vector branch

  /**
   * Greyscale the drawing, invert it if it is then mostly white, and scale it
   * by min(target_width / width, target_height / height) on both axes.
   */
  method ProcessSvgLogo(drawing: Drawing, targetWidth: real, targetHeight: real) returns (r: Result<Drawing>)
    ensures r.Err? <==> drawing.width == 0.0 || drawing.height == 0.0
    ensures r.Err? ==> r.error == ZeroDivision
    ensures r.Ok? ==>
      var s := FitScale(targetWidth, targetHeight, drawing.width, drawing.height).value;
      r.value == Drawing(Normalize(drawing.root), drawing.width * s, drawing.height * s)
  {
    var root := ConvertToGreyscale(drawing.root);
    var white := IsMostlyWhite(root);
    if white {
      root := InvertSvg(root);
    }
    if drawing.width == 0.0 || drawing.height == 0.0 {
      return Err(ZeroDivision);
    }
    var scaleX := targetWidth / drawing.width;
    var scaleY := targetHeight / drawing.height;
    var scale := Min(scaleX, scaleY);
    r := Ok(Drawing(root, drawing.width * scale, drawing.height * scale));
  }

  /**
   * A processed SVG is drawn with its bottom-left corner at the logo box's
   * bottom-left corner. It then lies inside the logo box and the badge, with
   * its aspect ratio kept; it is horizontally centred on the badge only when
   * it fills the box's width.
   */
  lemma SvgLogoPlacement(x: real, y: real, width: real, height: real, w: real, h: real)
    requires width > 0.0 && height > 223.2 && w > 0.0 && h > 0.0
    ensures var box := LayoutBadge(x, y, width, height).logoBox;
      var s := FitScale(box.width, box.height, w, h).value;
      var drawn := Rect(box.x, box.y, w * s, h * s);
      Inside(drawn, box) && Inside(drawn, Rect(x, y, width, height)) &&
      drawn.width * h == drawn.height * w &&
      (drawn.x + drawn.width / 2.0 == x + width / 2.0 <==> drawn.width == box.width)
  {
    var box := LayoutBadge(x, y, width, height).logoBox;
    FitScaleFits(box.width, box.height, w, h);
    LayoutOrdered(x, y, width, height);
  }
}
