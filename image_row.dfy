/**
 * `ImageRow`: the option set of image sources it may offer and the choice its selection makes
 * between the plain selector, a direct image picker and an action sheet.
 */
module ImageRows {
  import opened Wrappers
  import opened Options

  /** `UIImagePickerControllerSourceType` raw values. */
  const PhotoLibrarySource: nat := 0
  const CameraSource: nat := 1
  const SavedPhotosAlbumSource: nat := 2

  /** `ImageRowSourceTypes(sourceType)`: the set holding one source has raw value `1 << sourceType`. */
  function SourceSet(sourceType: nat): (s: Bits)
    requires sourceType < 64
    ensures s != 0 && s & (s - 1) == 0
  {
    1 << sourceType
  }

  const PhotoLibrary: Bits := SourceSet(PhotoLibrarySource)
  const Camera: Bits := SourceSet(CameraSource)
  const SavedPhotosAlbum: Bits := SourceSet(SavedPhotosAlbumSource)

  /** `ImageRowSourceTypes.All`. */
  const All: Bits := Camera | PhotoLibrary | SavedPhotosAlbum

  /** `imagePickerControllerSourceTypeRawValue`. */
  function PickerSourceRawValue(s: Bits): Bits {
    s >> 1
  }

  /** The three sources are distinct bits, `All` is exactly their union, and decoding a single source gives it back. */
  lemma SourceEncoding()
    ensures PhotoLibrary == 1 && Camera == 2 && SavedPhotosAlbum == 4 && All == 7
    ensures PickerSourceRawValue(PhotoLibrary) == PhotoLibrarySource as Bits
    ensures PickerSourceRawValue(Camera) == CameraSource as Bits
    ensures PickerSourceRawValue(SavedPhotosAlbum) == SavedPhotosAlbumSource as Bits
    ensures forall m: Bits :: Contains(All, m) <==> m & 7 == m
  {
  }

  /** The sources `customDidSelect` finds available, from the three `isSourceTypeAvailable` answers. */
  function Available(library: bool, camera: bool, saved: bool): (s: Bits)
    ensures s & All == s
    ensures Contains(s, PhotoLibrary) <==> library
    ensures Contains(s, Camera) <==> camera
    ensures Contains(s, SavedPhotosAlbum) <==> saved
  {
    SourceEncoding();
    (if library then PhotoLibrary else 0) | (if camera then Camera else 0) | (if saved then SavedPhotosAlbum else 0)
  }

  /** Narrowing to some of `All` stays within `All`. */
  lemma NarrowedWithinAll(before: Bits, available: Bits)
    requires available & All == available
    ensures (before & available) & All == before & available
  {
  }

  /** The entries of the source action sheet. */
  datatype Action = TakePhoto | ChoosePhotoLibrary | ChooseSavedPhotos | ClearPhoto | Cancel

  /** `ImageClearAction`; the alert style is not modelled. */
  datatype ClearAction = No | Yes

  /** What a selection of the row shows. */
  datatype Presentation =
    | Selector                           // `super.customDidSelect()`: the plain selector presentation
    | ImagePicker(sourceType: nat)       // the image picker for the only source
    | Sheet(actions: seq<Action>)        // the action sheet, ending with `Cancel`

  /** The action sheet entries for `sources`, before `Cancel`: the offered sources, then the clear option. */
  function SheetActions(sources: Bits, clear: ClearAction, hasValue: bool): (r: seq<Action>)
    ensures TakePhoto in r <==> Contains(sources, Camera)
    ensures ChoosePhotoLibrary in r <==> Contains(sources, PhotoLibrary)
    ensures ChooseSavedPhotos in r <==> Contains(sources, SavedPhotosAlbum)
    ensures ClearPhoto in r <==> clear == Yes && hasValue
    ensures Cancel !in r
  {
    (if Contains(sources, Camera) then [TakePhoto] else []) +
    (if Contains(sources, PhotoLibrary) then [ChoosePhotoLibrary] else []) +
    (if Contains(sources, SavedPhotosAlbum) then [ChooseSavedPhotos] else []) +
    (if clear == Yes && hasValue then [ClearPhoto] else [])
  }

  /** With a single entry left, the sources are exactly one of the three, which decoding gives back. */
  lemma SingleActionIsOneSource(sources: Bits, clear: ClearAction, hasValue: bool)
    requires sources != 0 && sources & All == sources
    requires |SheetActions(sources, clear, hasValue)| == 1
    ensures !(clear == Yes && hasValue)
    ensures sources in {PhotoLibrary, Camera, SavedPhotosAlbum}
    ensures PickerSourceRawValue(sources) as int in {PhotoLibrarySource, CameraSource, SavedPhotosAlbumSource}
    ensures Contains(sources, SourceSet(PickerSourceRawValue(sources) as nat))
  {
    SourceEncoding();
    assert sources == 1 || sources == 2 || sources == 3 || sources == 4 || sources == 5 || sources == 6 || sources == 7;
  }

  /**
   * What an enabled row shows for the narrowed `sources`: the selector when none is left, the
   * picker for the source when it is the only action, and otherwise the sheet with `Cancel`.
   */
  function Outcome(sources: Bits, clear: ClearAction, hasValue: bool): Presentation
    requires sources & All == sources
  {
    if sources == 0 then Selector
    else
      var actions := SheetActions(sources, clear, hasValue);
      if |actions| == 1 then ImagePicker(PickerSourceRawValue(sources) as nat) else Sheet(actions + [Cancel])
  }

  /**
   * The picker is opened only when one source and no clear option is offered, and then for
   * that source (so `UIImagePickerControllerSourceType(rawValue:)` always succeeds); a sheet
   * offers every source left and the clear option exactly when the row has an image to clear.
   */
  lemma OutcomeSpec(sources: Bits, clear: ClearAction, hasValue: bool)
    requires sources & All == sources
    ensures Outcome(sources, clear, hasValue) == Selector <==> sources == 0
    ensures Outcome(sources, clear, hasValue).ImagePicker? ==>
              var k := Outcome(sources, clear, hasValue).sourceType;
              k in {PhotoLibrarySource, CameraSource, SavedPhotosAlbumSource} && sources == SourceSet(k) && !(clear == Yes && hasValue)
    ensures Outcome(sources, clear, hasValue).Sheet? ==>
              var actions := Outcome(sources, clear, hasValue).actions;
              |actions| >= 3 && actions[|actions| - 1] == Cancel &&
              (ClearPhoto in actions <==> clear == Yes && hasValue) &&
              (TakePhoto in actions <==> Contains(sources, Camera))
  {
    if sources != 0 && |SheetActions(sources, clear, hasValue)| == 1 {
      SingleActionIsOneSource(sources, clear, hasValue);
    }
  }

  /** An image row: the sources it may offer, its image, and whether it offers to clear it. */
  class ImageRow<Image> {
    var sourceTypes: Bits
    var value: Option<Image>
    var clearAction: ClearAction

    /** `init(tag:)`: every source, no image, and the clear option. */
    constructor ()
      ensures sourceTypes == All && value == None && clearAction == Yes
    {
      sourceTypes := All;
      value := None;
      clearAction := Yes;
    }

    /**
     * `customDidSelect`: a disabled row falls back to the selector. Otherwise the sources
     * shrink to the available ones (`isSourceTypeAvailable`, given as three flags); with none
     * left the selector is used, with a single action the picker opens for that source, and
     * otherwise the sheet lists the actions followed by `Cancel`.
     */
    method CustomDidSelect(isDisabled: bool, libraryAvailable: bool, cameraAvailable: bool, savedAvailable: bool)
      returns (p: Presentation)
      modifies this
      ensures value == old(value) && clearAction == old(clearAction)
      ensures sourceTypes == if isDisabled then old(sourceTypes) else old(sourceTypes) & Available(libraryAvailable, cameraAvailable, savedAvailable)
      ensures sourceTypes & All == sourceTypes || isDisabled
      ensures p == if isDisabled then Selector else Outcome(sourceTypes, clearAction, value.Some?)
    {
      if isDisabled {
        return Selector;
      }
      var availableSources := AvailableSources(libraryAvailable, cameraAvailable, savedAvailable);
      NarrowedWithinAll(sourceTypes, availableSources);
      sourceTypes := sourceTypes & availableSources;
      if sourceTypes == 0 {
        return Selector;
      }
      var actions := ActionsFor(sourceTypes, clearAction, value.Some?);
      if |actions| == 1 {
        p := ImagePicker(PickerSourceRawValue(sourceTypes) as nat);
      } else {
        p := Sheet(actions + [Cancel]);
      }
    }

    /** The loop-free collection of the three `isSourceTypeAvailable` answers into a set. */
    static method AvailableSources(libraryAvailable: bool, cameraAvailable: bool, savedAvailable: bool) returns (availableSources: Bits)
      ensures availableSources == Available(libraryAvailable, cameraAvailable, savedAvailable)
    {
      availableSources := 0;
      if libraryAvailable {
        availableSources := availableSources | PhotoLibrary;
      }
      if cameraAvailable {
        availableSources := availableSources | Camera;
      }
      if savedAvailable {
        availableSources := availableSources | SavedPhotosAlbum;
      }
    }

    /** The sheet's actions, added one by one. */
    static method ActionsFor(sources: Bits, clear: ClearAction, hasValue: bool) returns (actions: seq<Action>)
      ensures actions == SheetActions(sources, clear, hasValue)
    {
      actions := [];
      if Contains(sources, Camera) {
        actions := actions + [TakePhoto];
      }
      if Contains(sources, PhotoLibrary) {
        actions := actions + [ChoosePhotoLibrary];
      }
      if Contains(sources, SavedPhotosAlbum) {
        actions := actions + [ChooseSavedPhotos];
      }
      if clear == Yes && hasValue {
        actions := actions + [ClearPhoto];
      }
    }

    /** The handler of the clear option: the image is removed. */
    method Clear()
      modifies this
      ensures value == None && sourceTypes == old(sourceTypes) && clearAction == old(clearAction)
    {
      value := None;
    }
  }

  /** The sources left after a selection are some of those before it, and of the available ones. */
  lemma NarrowedSources(before: Bits, available: Bits)
    ensures forall m :: Contains(before & available, m) ==> Contains(before, m) && Contains(available, m)
  {
  }
}
