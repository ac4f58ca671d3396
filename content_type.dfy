/** parse_content_type of handle_connection.c: the MIME type a target is served with,
    read off the text from its last '.' on. */
module ContentTypes {
  import opened CStrings

  const DefaultType: string := "text/plain"

  /** strrchr(target, '.'): the text from the last '.' on, or NULL when there is none. */
  function Extension(target: string): (r: Option<string>)
    ensures r.None? <==> '.' !in target
    ensures r.Some? ==> |r.value| >= 1 && r.value[0] == '.' && '.' !in r.value[1..]
    ensures r.Some? ==> EndsWith(target, r.value)
  {
    match LastIndexOf(target, '.')
    case None => None
    case Some(d) =>
      assert target[d..][1..] == target[d + 1..];
      Some(target[d..])
  }

  /** The four comparisons of parse_content_type, each overriding the one before; a target
      without a '.' gets the default (in C that case hands NULL to strcmp). */
  function ContentTypeOf(target: string): string {
    match Extension(target)
    case None => DefaultType
    case Some(ext) =>
      var ct := DefaultType;
      var ct := if ext == ".html" then "text/html" else ct;
      var ct := if ext == ".png" then "image/png" else ct;
      var ct := if ext == ".jpg" then "image/jpg" else ct;
      var ct := if ext == ".ico" then "image/ico" else ct;
      ct
  }

  /** A target ends in a dot followed by dot-free text exactly when that is its extension. */
  lemma {:induction false} ExtensionOfSuffix(target: string, ext: string)
    requires |ext| >= 1 && ext[0] == '.' && '.' !in ext[1..]
    ensures Extension(target) == Some(ext) <==> EndsWith(target, ext)
  {
    if !EndsWith(target, ext) {
      return;
    }
    var d := |target| - |ext|;
    assert target[d] == ext[0];
    var r := LastIndexOf(target, '.');
    assert r.Some?;
    var k := r.value;
    assert k == d;
  }

  /** The type chosen for each extension strrchr can return. */
  lemma ContentTypeOfExtension(target: string)
    ensures ContentTypeOf(target) == "text/html" <==> Extension(target) == Some(".html")
    ensures ContentTypeOf(target) == "image/png" <==> Extension(target) == Some(".png")
    ensures ContentTypeOf(target) == "image/jpg" <==> Extension(target) == Some(".jpg")
    ensures ContentTypeOf(target) == "image/ico" <==> Extension(target) == Some(".ico")
    ensures ContentTypeOf(target) == DefaultType <==>
              Extension(target) != Some(".html") && Extension(target) != Some(".png") &&
              Extension(target) != Some(".jpg") && Extension(target) != Some(".ico")
  {
    assert DefaultType[5] == 'p' && "text/html"[5] == 'h';
    assert "image/png"[6] == 'p' && "image/jpg"[6] == 'j' && "image/ico"[6] == 'i';
    assert DefaultType[0] == 't' && "text/html"[0] == 't' && "image/png"[0] == 'i';
    var e := Extension(target);
    if e == Some(".html") {
      assert ContentTypeOf(target) == "text/html";
    } else if e == Some(".png") {
      assert ContentTypeOf(target) == "image/png";
    } else if e == Some(".jpg") {
      assert ContentTypeOf(target) == "image/jpg";
    } else if e == Some(".ico") {
      assert ContentTypeOf(target) == "image/ico";
    } else {
      assert ContentTypeOf(target) == DefaultType;
    }
  }

  /** The four recognised extensions map to their types, and a type other than the default
      comes only from its extension; every other suffix, and no suffix at all, is served
      as text/plain. */
  lemma ContentTypeByExtension(target: string)
    ensures ContentTypeOf(target) == "text/html" <==> EndsWith(target, ".html")
    ensures ContentTypeOf(target) == "image/png" <==> EndsWith(target, ".png")
    ensures ContentTypeOf(target) == "image/jpg" <==> EndsWith(target, ".jpg")
    ensures ContentTypeOf(target) == "image/ico" <==> EndsWith(target, ".ico")
    ensures ContentTypeOf(target) == DefaultType <==>
              !EndsWith(target, ".html") && !EndsWith(target, ".png") &&
              !EndsWith(target, ".jpg") && !EndsWith(target, ".ico")
  {
    ContentTypeOfExtension(target);
    ExtensionOfSuffix(target, ".html");
    ExtensionOfSuffix(target, ".png");
    ExtensionOfSuffix(target, ".jpg");
    ExtensionOfSuffix(target, ".ico");
  }

  /** The four checks are mutually exclusive: no target ends in two of the extensions, so
      the order of the comparisons does not matter. */
  lemma ExtensionsExclusive(target: string)
    ensures !(EndsWith(target, ".html") && EndsWith(target, ".png"))
    ensures !(EndsWith(target, ".html") && EndsWith(target, ".jpg"))
    ensures !(EndsWith(target, ".html") && EndsWith(target, ".ico"))
    ensures !(EndsWith(target, ".png") && EndsWith(target, ".jpg"))
    ensures !(EndsWith(target, ".png") && EndsWith(target, ".ico"))
    ensures !(EndsWith(target, ".jpg") && EndsWith(target, ".ico"))
  {
    if |target| >= 1 {
      var last := target[|target| - 1];
      assert EndsWith(target, ".html") ==> last == 'l';
      assert EndsWith(target, ".png") ==> last == 'g';
      assert EndsWith(target, ".jpg") ==> last == 'g';
      assert EndsWith(target, ".ico") ==> last == 'o';
      assert EndsWith(target, ".png") ==> target[|target| - 2] == 'n';
      assert EndsWith(target, ".jpg") ==> target[|target| - 2] == 'p';
    }
  }
}
