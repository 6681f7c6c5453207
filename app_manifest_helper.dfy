/** The projection of an application manifest onto its VisualElements record
    (AppManifestHelper.GetManifestVisualElementsAsync), over a document that
    has already been read and parsed into its elements in document order. */
module AppManifestHelper {
  import opened Wrappers
  import HexColor

  // ---------------------------------------------------------------------------
  // Configuration

  /** The manifest schema generation chosen when the library is built:
      `Uap` when WINDOWS_UAP is defined, `Windows81` otherwise. */
  datatype Schema = Uap | Windows81

  const DisplayNameAttributeName: string := "DisplayName"
  const DescriptionAttributeName: string := "Description"
  const LogoAttributeName: string := "Square150x150Logo"
  const BackgroundColorAttributeName: string := "BackgroundColor"

  function SmallLogoAttributeName(schema: Schema): string {
    match schema
    case Uap => "Square44x44Logo"
    case Windows81 => "Square30x30Logo"
  }

  function VisualElementsNamespaceName(schema: Schema): string {
    match schema
    case Uap => "http://schemas.microsoft.com/appx/manifest/uap/windows10"
    case Windows81 => "http://schemas.microsoft.com/appx/2013/manifest"
  }

  /** The message passed to the exception raised when nothing matches. */
  const NotFoundMessage: string := "Could not parse the VisualElements from the app manifest."

  /** The scheme and empty authority every logo locator starts with. */
  const AppxPrefix: string := "ms-appx:///"

  // ---------------------------------------------------------------------------
  // The parsed document

  /** An XML qualified name: a local name in a namespace. */
  datatype XName = XName(localName: string, namespaceName: string)

  /** One XML element: its qualified name and its attributes by name. */
  datatype XElement = XElement(name: XName, attributes: map<string, string>)

  function VisualElementsName(schema: Schema): XName {
    XName("VisualElements", VisualElementsNamespaceName(schema))
  }

  /** The projected record; the two locators are kept as plain strings. */
  datatype VisualElement = VisualElement(
    DisplayName: string,
    Description: string,
    LogoUri: string,
    SmallLogoUri: string,
    BackgroundColorAsString: string)
  {
    /** The colour getter: the raw attribute text decoded afresh on every access. */
    function BackgroundColor(): (c: Result<HexColor.Color, HexColor.ColorError>)
      ensures c == HexColor.Decode(BackgroundColorAsString)
    {
      HexColor.Decode(BackgroundColorAsString)
    }
  }

  /** How the projection fails. `ArgumentNull` carries the single string the
      source hands to ArgumentNullException, which .NET takes as the parameter
      name; `NullReference` names the attribute whose missing value was read. */
  datatype ManifestError =
    | ArgumentNull(paramName: string)
    | NullReference(attribute: string)

  // ---------------------------------------------------------------------------
  // Locators

  /** `path.Replace(@"\", @"/")`. */
  function ReplaceBackslashes(path: string): (r: string)
    ensures |r| == |path|
    ensures '\\' !in r
    ensures forall i :: 0 <= i < |path| && path[i] != '\\' ==> r[i] == path[i]
    ensures forall i :: 0 <= i < |path| && path[i] == '\\' ==> r[i] == '/'
  {
    if path == [] then []
    else [if path[0] == '\\' then '/' else path[0]] + ReplaceBackslashes(path[1..])
  }

  /** The package-relative locator of a logo file. */
  function AppxUri(path: string): (u: string)
    ensures |u| == |AppxPrefix| + |path|
    ensures u[..|AppxPrefix|] == AppxPrefix
    ensures '\\' !in u[|AppxPrefix|..]
    ensures forall i :: 0 <= i < |path| && path[i] != '\\' ==> u[|AppxPrefix| + i] == path[i]
    ensures forall i :: 0 <= i < |path| && path[i] == '\\' ==> u[|AppxPrefix| + i] == '/'
  {
    AppxPrefix + ReplaceBackslashes(path)
  }

  /** A Windows-style relative path becomes a forward-slash locator. */
  lemma AppxUriExample()
    ensures AppxUri("img\\a.png") == "ms-appx:///img/a.png"
  {
    var p := "img\\a.png";
    var r := ReplaceBackslashes(p);
    assert p[3] == '\\';
    assert forall i :: 0 <= i < |p| ==> r[i] == "img/a.png"[i];
  }

  /** Replacing backslashes a second time changes nothing. */
  lemma ReplaceBackslashesIdempotent(path: string)
    ensures ReplaceBackslashes(ReplaceBackslashes(path)) == ReplaceBackslashes(path)
  {
    var once := ReplaceBackslashes(path);
    var twice := ReplaceBackslashes(once);
    assert forall i :: 0 <= i < |once| ==> twice[i] == once[i];
  }

  // ---------------------------------------------------------------------------
  // Projection

  /** `vel.Attribute(name).Value`: the attribute's text, or the null
      dereference that a missing attribute causes. */
  function AttributeValue(vel: XElement, name: string): (r: Result<string, ManifestError>)
    ensures r.Success? <==> name in vel.attributes
    ensures r.Success? ==> r.value == vel.attributes[name]
    ensures r.Failure? ==> r.error == NullReference(name)
  {
    if name in vel.attributes then Success(vel.attributes[name]) else Failure(NullReference(name))
  }

  /** The element carries all five attributes the record needs. */
  predicate HasRequiredAttributes(vel: XElement, schema: Schema) {
    && DisplayNameAttributeName in vel.attributes
    && DescriptionAttributeName in vel.attributes
    && LogoAttributeName in vel.attributes
    && SmallLogoAttributeName(schema) in vel.attributes
    && BackgroundColorAttributeName in vel.attributes
  }

  /** The same five attributes, in the order the object initializer reads them. */
  function RequiredAttributes(schema: Schema): seq<string> {
    [DisplayNameAttributeName, DescriptionAttributeName, LogoAttributeName,
     SmallLogoAttributeName(schema), BackgroundColorAttributeName]
  }

  /** The `select new VisualElement { ... }` of one element: each field read
      in turn, the first missing attribute ending the projection. */
  function Select(vel: XElement, schema: Schema): Result<VisualElement, ManifestError>
  {
    var displayName :- AttributeValue(vel, DisplayNameAttributeName);
    var description :- AttributeValue(vel, DescriptionAttributeName);
    var logo :- AttributeValue(vel, LogoAttributeName);
    var smallLogo :- AttributeValue(vel, SmallLogoAttributeName(schema));
    var backgroundColor :- AttributeValue(vel, BackgroundColorAttributeName);
    Success(VisualElement(displayName, description, AppxUri(logo), AppxUri(smallLogo), backgroundColor))
  }

  /** GetManifestVisualElementsAsync after the document is loaded: the lazy
      query with FirstOrDefault projects only the first element with the
      VisualElements name; with none, the not-found exception is raised. */
  function GetManifestVisualElements(doc: seq<XElement>, schema: Schema): Result<VisualElement, ManifestError>
  {
    if doc == [] then Failure(ArgumentNull(NotFoundMessage))
    else if doc[0].name == VisualElementsName(schema) then Select(doc[0], schema)
    else GetManifestVisualElements(doc[1..], schema)
  }

  // ---------------------------------------------------------------------------
  // Properties of the projection

  /** i is the position of the first element named n. */
  predicate IsFirstMatch(doc: seq<XElement>, n: XName, i: int) {
    && 0 <= i < |doc|
    && doc[i].name == n
    && forall j :: 0 <= j < i ==> doc[j].name != n
  }

  predicate HasMatch(doc: seq<XElement>, n: XName) {
    exists i :: 0 <= i < |doc| && doc[i].name == n
  }

  /** There is at most one first match. */
  lemma FirstMatchUnique(doc: seq<XElement>, n: XName, i: int)
    requires IsFirstMatch(doc, n, i)
    ensures forall j :: IsFirstMatch(doc, n, j) ==> j == i
  {
  }

  /** Some element has the name exactly when there is a first such element. */
  lemma {:induction false} FirstMatchExists(doc: seq<XElement>, n: XName)
    requires HasMatch(doc, n)
    ensures exists i :: IsFirstMatch(doc, n, i)
  {
    if doc[0].name == n {
      assert IsFirstMatch(doc, n, 0);
    } else {
      var k :| 0 <= k < |doc| && doc[k].name == n;
      assert doc[1..][k - 1] == doc[k];
      FirstMatchExists(doc[1..], n);
      var i :| IsFirstMatch(doc[1..], n, i);
      assert IsFirstMatch(doc, n, i + 1);
    }
  }

  /** Projecting one element succeeds exactly when it has all five required
      attributes; the first missing one, in reading order, is the one reported;
      on success the texts are copied verbatim and the logo paths become locators. */
  lemma SelectSpec(vel: XElement, schema: Schema)
    ensures Select(vel, schema).Success? <==> HasRequiredAttributes(vel, schema)
    ensures Select(vel, schema).Failure? ==>
      exists k :: 0 <= k < 5 && Select(vel, schema).error == NullReference(RequiredAttributes(schema)[k])
        && RequiredAttributes(schema)[k] !in vel.attributes
        && forall j :: 0 <= j < k ==> RequiredAttributes(schema)[j] in vel.attributes
    ensures Select(vel, schema).Success? ==>
      var a := vel.attributes;
      Select(vel, schema).value == VisualElement(
        a[DisplayNameAttributeName], a[DescriptionAttributeName],
        AppxUri(a[LogoAttributeName]), AppxUri(a[SmallLogoAttributeName(schema)]),
        a[BackgroundColorAttributeName])
  {
    var names := RequiredAttributes(schema);
    var a := vel.attributes;
    if names[0] !in a {
      assert Select(vel, schema).error == NullReference(names[0]);
    } else if names[1] !in a {
      assert Select(vel, schema).error == NullReference(names[1]);
    } else if names[2] !in a {
      assert Select(vel, schema).error == NullReference(names[2]);
    } else if names[3] !in a {
      assert Select(vel, schema).error == NullReference(names[3]);
    } else if names[4] !in a {
      assert Select(vel, schema).error == NullReference(names[4]);
    }
  }

  /** The not-found error is raised exactly when no element has the
      VisualElements name of the configured schema. */
  lemma {:induction false} NotFoundIffNoMatch(doc: seq<XElement>, schema: Schema)
    ensures GetManifestVisualElements(doc, schema) == Failure(ArgumentNull(NotFoundMessage))
      <==> !HasMatch(doc, VisualElementsName(schema))
  {
    var n := VisualElementsName(schema);
    if doc != [] {
      if doc[0].name == n {
        SelectSpec(doc[0], schema);
        assert HasMatch(doc, n) by { assert doc[0].name == n; }
      } else {
        NotFoundIffNoMatch(doc[1..], schema);
        assert HasMatch(doc, n) <==> HasMatch(doc[1..], n) by {
          if HasMatch(doc, n) {
            var k :| 0 <= k < |doc| && doc[k].name == n;
            assert doc[1..][k - 1] == doc[k];
          }
          if HasMatch(doc[1..], n) {
            var k :| 0 <= k < |doc[1..]| && doc[1..][k].name == n;
            assert doc[k + 1] == doc[1..][k];
          }
        }
      }
    }
  }

  /** The first matching element alone decides the outcome: whatever comes
      before it has another name and whatever comes after it is never read. */
  lemma {:induction false} FirstMatchDecides(doc: seq<XElement>, schema: Schema, i: nat)
    requires IsFirstMatch(doc, VisualElementsName(schema), i)
    ensures GetManifestVisualElements(doc, schema) == Select(doc[i], schema)
  {
    if i > 0 {
      var n := VisualElementsName(schema);
      assert doc[0].name != n;
      forall j | 0 <= j < i - 1 ensures doc[1..][j].name != n {
        assert doc[1..][j] == doc[j + 1];
      }
      FirstMatchDecides(doc[1..], schema, i - 1);
    }
  }

  /** Elements appended after a match never change the result. */
  lemma LaterElementsIgnored(doc: seq<XElement>, rest: seq<XElement>, schema: Schema)
    requires HasMatch(doc, VisualElementsName(schema))
    ensures GetManifestVisualElements(doc + rest, schema) == GetManifestVisualElements(doc, schema)
  {
    var n := VisualElementsName(schema);
    FirstMatchExists(doc, n);
    var i :| IsFirstMatch(doc, n, i);
    assert IsFirstMatch(doc + rest, n, i) by {
      assert (doc + rest)[i] == doc[i];
      forall j | 0 <= j < i ensures (doc + rest)[j].name != n {
        assert (doc + rest)[j] == doc[j];
      }
    }
    FirstMatchDecides(doc, schema, i);
    FirstMatchDecides(doc + rest, schema, i);
  }

  /** The whole contract of the projection: success exactly when the first
      matching element exists and carries the five attributes, and then the
      record holds that element's texts and locators. */
  lemma ProjectionSpec(doc: seq<XElement>, schema: Schema)
    ensures GetManifestVisualElements(doc, schema).Success? <==>
      exists i :: IsFirstMatch(doc, VisualElementsName(schema), i) && HasRequiredAttributes(doc[i], schema)
    ensures forall i :: IsFirstMatch(doc, VisualElementsName(schema), i) ==>
      GetManifestVisualElements(doc, schema) == Select(doc[i], schema)
    ensures GetManifestVisualElements(doc, schema).Success? ==>
      var v := GetManifestVisualElements(doc, schema).value;
      exists i :: IsFirstMatch(doc, VisualElementsName(schema), i) && HasRequiredAttributes(doc[i], schema)
        && v.DisplayName == doc[i].attributes[DisplayNameAttributeName]
        && v.Description == doc[i].attributes[DescriptionAttributeName]
        && v.BackgroundColorAsString == doc[i].attributes[BackgroundColorAttributeName]
        && v.LogoUri == AppxUri(doc[i].attributes[LogoAttributeName])
        && v.SmallLogoUri == AppxUri(doc[i].attributes[SmallLogoAttributeName(schema)])
  {
    var n := VisualElementsName(schema);
    forall i | IsFirstMatch(doc, n, i)
      ensures GetManifestVisualElements(doc, schema) == Select(doc[i], schema)
    {
      FirstMatchDecides(doc, schema, i);
    }
    if HasMatch(doc, n) {
      FirstMatchExists(doc, n);
      var i :| IsFirstMatch(doc, n, i);
      SelectSpec(doc[i], schema);
      FirstMatchUnique(doc, n, i);
    } else {
      NotFoundIffNoMatch(doc, schema);
    }
  }

  /** The colour on a projected record is the decoding of the first matching
      element's BackgroundColor attribute. */
  lemma BackgroundColorOfManifest(doc: seq<XElement>, schema: Schema, i: nat)
    requires IsFirstMatch(doc, VisualElementsName(schema), i) && HasRequiredAttributes(doc[i], schema)
    ensures GetManifestVisualElements(doc, schema).Success?
    ensures GetManifestVisualElements(doc, schema).value.BackgroundColor()
      == HexColor.Decode(doc[i].attributes[BackgroundColorAttributeName])
  {
    FirstMatchDecides(doc, schema, i);
    SelectSpec(doc[i], schema);
  }
}
