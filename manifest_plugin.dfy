/** The Android-manifest half of the config plugin: declare the three OpenCL
    native libraries in the first application node, adding only those not
    already declared. */
module ManifestPlugin {
  import opened Common

  const NameAttribute: string := "android:name"
  const RequiredAttribute: string := "android:required"

  /** A `uses-native-library` entry; `attributes` is its `$` object, which
      an entry written by hand may lack. */
  datatype Library = Library(attributes: Option<map<string, string>>)

  /** An application node: its `uses-native-library` list, if any, and its
      other attributes, which the plugin never touches. */
  datatype Application = Application(libraries: Option<seq<Library>>, attributes: map<string, string>)

  /** The libraries the plugin declares, in the order it adds them. */
  const NativeLibraryNames: seq<string> := ["libOpenCL.so", "libOpenCL-car.so", "libOpenCL-pixel.so"]

  /** The entry the plugin writes for a library: optional, by name. */
  function NativeLibrary(name: string): Library
  {
    Library(Some(map[NameAttribute := name, RequiredAttribute := "false"]))
  }

  /** Some entry of `libs` declares `name`. */
  predicate Declares(libs: seq<Library>, name: string)
  {
    exists j :: 0 <= j < |libs| && Names(libs[j], name)
  }

  predicate Names(lib: Library, name: string)
  {
    lib.attributes.Some? && NameAttribute in lib.attributes.value && lib.attributes.value[NameAttribute] == name
  }

  /** `libs` with an entry appended, in order, for each of `names` that is
      not declared by the time it is considered. */
  function AddMissing(libs: seq<Library>, names: seq<string>): seq<Library>
  {
    if |names| == 0 then libs
    else
      var before := AddMissing(libs, names[..|names| - 1]);
      var name := names[|names| - 1];
      if Declares(before, name) then before else before + [NativeLibrary(name)]
  }

  /** The application list after the plugin: a missing or non-array list
      becomes empty; an empty list gets one application declaring all three
      libraries; otherwise only the first application's list changes. */
  function PatchApplications(apps: Option<seq<Application>>): seq<Application>
  {
    var list := if apps.Some? then apps.value else [];
    if |list| == 0 then [Application(Some(NativeLibraries()), map[])]
    else
      var first := list[0];
      var libs := if first.libraries.Some? then first.libraries.value else [];
      list[0 := first.(libraries := Some(AddMissing(libs, NativeLibraryNames)))]
  }

  function NativeLibraries(): seq<Library>
  {
    [NativeLibrary(NativeLibraryNames[0]), NativeLibrary(NativeLibraryNames[1]), NativeLibrary(NativeLibraryNames[2])]
  }

  /** Existing entries are kept, in order, at the front. */
  lemma {:induction false} AddMissingKeepsExisting(libs: seq<Library>, names: seq<string>)
    ensures |AddMissing(libs, names)| >= |libs|
    ensures AddMissing(libs, names)[..|libs|] == libs
  {
    if |names| > 0 {
      AddMissingKeepsExisting(libs, names[..|names| - 1]);
    }
  }

  /** A name declared by a prefix is declared by the whole list. */
  lemma DeclaresPrefix(libs: seq<Library>, longer: seq<Library>, name: string)
    requires |longer| >= |libs| && longer[..|libs|] == libs
    ensures Declares(libs, name) ==> Declares(longer, name)
  {
    if Declares(libs, name) {
      var i :| 0 <= i < |libs| && Names(libs[i], name);
      assert longer[i] == libs[i];
    }
  }

  /** Afterwards every requested name is declared. */
  lemma {:induction false} AddMissingDeclaresAll(libs: seq<Library>, names: seq<string>)
    ensures forall k :: 0 <= k < |names| ==> Declares(AddMissing(libs, names), names[k])
  {
    if |names| > 0 {
      var init := names[..|names| - 1];
      var before := AddMissing(libs, init);
      var name := names[|names| - 1];
      AddMissingDeclaresAll(libs, init);
      if !Declares(before, name) {
        forall k | 0 <= k < |names|
          ensures Declares(before + [NativeLibrary(name)], names[k])
        {
          if k < |init| {
            assert names[k] == init[k];
            assert (before + [NativeLibrary(name)])[..|before|] == before;
            DeclaresPrefix(before, before + [NativeLibrary(name)], names[k]);
          } else {
            assert (before + [NativeLibrary(name)])[|before|] == NativeLibrary(name);
          }
        }
      } else {
        forall k | 0 <= k < |names|
          ensures Declares(before, names[k])
        {
          if k < |init| {
            assert names[k] == init[k];
          }
        }
      }
    }
  }

  /** When every name is already declared nothing is added. */
  lemma {:induction false} AddMissingNoop(libs: seq<Library>, names: seq<string>)
    requires forall k :: 0 <= k < |names| ==> Declares(libs, names[k])
    ensures AddMissing(libs, names) == libs
  {
    if |names| > 0 {
      var init := names[..|names| - 1];
      assert forall k :: 0 <= k < |init| ==> init[k] == names[k];
      AddMissingNoop(libs, init);
      assert Declares(libs, names[|names| - 1]);
    }
  }

  /** Every entry the plugin appends is one of its own, for a name that was
      not declared before. */
  lemma {:induction false} AddMissingAppendsOnlyMissing(libs: seq<Library>, names: seq<string>)
    ensures forall j :: |libs| <= j < |AddMissing(libs, names)| ==>
              exists k :: 0 <= k < |names| && AddMissing(libs, names)[j] == NativeLibrary(names[k])
                                          && !Declares(libs, names[k])
  {
    AddMissingKeepsExisting(libs, names);
    if |names| > 0 {
      var init := names[..|names| - 1];
      var before := AddMissing(libs, init);
      var name := names[|names| - 1];
      AddMissingAppendsOnlyMissing(libs, init);
      AddMissingKeepsExisting(libs, init);
      var after := AddMissing(libs, names);
      forall j | |libs| <= j < |after|
        ensures exists k :: 0 <= k < |names| && after[j] == NativeLibrary(names[k]) && !Declares(libs, names[k])
      {
        if j < |before| {
          var k :| 0 <= k < |init| && before[j] == NativeLibrary(init[k]) && !Declares(libs, init[k]);
          assert after[j] == before[j] && names[k] == init[k];
        } else {
          assert after[j] == NativeLibrary(name);
          DeclaresPrefix(libs, before, name);
          assert names[|names| - 1] == name;
        }
      }
    }
  }

  /** The three library names are distinct, so on an empty list all three
      are added. */
  lemma NativeLibrariesFromEmpty()
    ensures AddMissing([], NativeLibraryNames) == NativeLibraries()
  {
    var names := NativeLibraryNames;
    assert names[..0] == [];
    assert names[..1] == [names[0]];
    assert names[..2] == [names[0], names[1]];
    assert names[..3] == names;
    assert AddMissing([], names[..1]) == [NativeLibrary(names[0])];
    assert !Names(NativeLibrary(names[0]), names[1]);
    assert AddMissing([], names[..2]) == [NativeLibrary(names[0]), NativeLibrary(names[1])];
    assert !Names(NativeLibrary(names[0]), names[2]) && !Names(NativeLibrary(names[1]), names[2]);
  }

  /** After the plugin the first application declares all three libraries,
      and the other applications are untouched. */
  lemma PatchDeclaresAll(apps: Option<seq<Application>>)
    ensures var result := PatchApplications(apps);
            && |result| >= 1
            && result[0].libraries.Some?
            && (forall k :: 0 <= k < |NativeLibraryNames| ==> Declares(result[0].libraries.value, NativeLibraryNames[k]))
            && (apps.Some? && |apps.value| > 0 ==>
                  |result| == |apps.value| && result[1..] == apps.value[1..]
                  && result[0].attributes == apps.value[0].attributes)
  {
    var list := if apps.Some? then apps.value else [];
    if |list| == 0 {
      NativeLibrariesFromEmpty();
      AddMissingDeclaresAll([], NativeLibraryNames);
    } else {
      var libs := if list[0].libraries.Some? then list[0].libraries.value else [];
      AddMissingDeclaresAll(libs, NativeLibraryNames);
    }
  }

  /** Running the plugin twice gives what running it once gives. */
  lemma PatchIdempotent(apps: Option<seq<Application>>)
    ensures PatchApplications(Some(PatchApplications(apps))) == PatchApplications(apps)
  {
    var once := PatchApplications(apps);
    PatchDeclaresAll(apps);
    AddMissingNoop(once[0].libraries.value, NativeLibraryNames);
    assert once[0 := once[0].(libraries := Some(once[0].libraries.value))] == once;
  }

  /** The manifest as the plugin sees it. `application` is None when the
      manifest's `application` value is missing or not an array. */
  class AndroidManifest {
    var application: Option<seq<Application>>

    constructor (application: Option<seq<Application>>)
      ensures this.application == application
    {
      this.application := application;
    }

    /** `addNativeLibraries`. */
    method AddNativeLibraries()
      modifies this
      ensures application == Some(PatchApplications(old(application)))
    {
      if application.None? {
        application := Some([]);
      }
      var apps := application.value;
      if |apps| == 0 {
        application := Some([Application(Some(NativeLibraries()), map[])]);
        return;
      }
      var app := apps[0];
      if app.libraries.None? {
        app := app.(libraries := Some([]));
      }
      var libs := app.libraries.value;
      for k := 0 to |NativeLibraryNames|
        invariant libs == AddMissing(app.libraries.value, NativeLibraryNames[..k])
      {
        var name := NativeLibraryNames[k];
        assert NativeLibraryNames[..k + 1][..k] == NativeLibraryNames[..k];
        var declared := Declares(libs, name);
        if !declared {
          libs := libs + [NativeLibrary(name)];
        }
      }
      assert NativeLibraryNames[..|NativeLibraryNames|] == NativeLibraryNames;
      application := Some(apps[0 := app.(libraries := Some(libs))]);
    }
  }
}
