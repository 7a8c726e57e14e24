/** `face_processing.py`: which files the face detector accepts, the
    validity branch of `detect_image`, and `label_faces`, which names each
    detected face after the saved faces it resembles. The face detector,
    the embeddings and the cosine similarity are those of the libraries the
    module calls; the model takes them as parameters. */
module FaceProcessing {
  import opened Wrappers
  import opened Text
  import ImageProcessing

  /*** validate_path ***/

  /** The extensions of `validate_path`. */
  const ValidExtensions: set<string> := {"webp", "tif", "tiff", "jpg", "bmp", "png", "jpeg"}

  /** `validate_path`: the text after the last dot (the whole path when it
      has none) must be one of the seven extensions, compared
      case-sensitively. */
  function ValidatePath(path: string): bool {
    AfterLast(path, '.') in ValidExtensions
  }

  /** A name with an extension is accepted exactly when the extension is
      listed. Each module states this for its own list, as each source
      file has its own copy of `validate_path`. */
  lemma ValidatePathOfName(stem: string, ext: string)
    requires Lacks(ext, '.')
    ensures ValidatePath(stem + "." + ext) <==> ext in ValidExtensions
  {
    AfterLastOfSuffix(stem, '.', ext);
  }

  /** Every file the face detector accepts the object detector accepts
      too; the raw, multi-picture, HEIC and PFM formats are accepted only
      by the object detector. */
  lemma ValidatePathWithinImages(path: string)
    ensures ValidatePath(path) ==> ImageProcessing.ValidatePath(path)
    ensures AfterLast(path, '.') in {"dng", "mpo", "heic", "pfm"} ==> ImageProcessing.ValidatePath(path) && !ValidatePath(path)
  {
    var e := AfterLast(path, '.');
    if e in ValidExtensions {
      assert e in ImageProcessing.ValidExtensions by {
        if |e| == 4 {
          assert e == "webp" || e == "tiff" || e == "jpeg";
        } else {
          assert e == "tif" || e == "jpg" || e == "bmp" || e == "png";
        }
      }
    }
    if e in {"dng", "mpo", "heic", "pfm"} {
      assert e !in ValidExtensions by {
        if |e| == 4 {
          assert e == "heic";
        } else {
          assert e[0] == 'd' || e[0] == 'm' || e[0] == 'p';
        }
      }
    }
  }

  /*** detect_image ***/

  /** `detect_image(filepath)` given the image `cv2.imread` returned and
      the detector `app.get`: for an accepted path, the detected faces, an
      empty or missing result read as no faces (`faces or []`); for any
      other path, no faces. */
  function DetectImage<I, F>(path: string, image: I, detect: I -> Option<seq<F>>): (r: (I, seq<F>))
    ensures r.0 == image
    ensures !ValidatePath(path) ==> r.1 == []
    ensures ValidatePath(path) && detect(image).Some? ==> r.1 == detect(image).value
  {
    if ValidatePath(path) then
      match detect(image)
      case Some(faces) => (image, faces)
      case None => (image, [])
    else (image, [])
  }

  /** The detector plays no part for a path that is not accepted: any two
      detectors give the same, empty, answer. */
  lemma DetectImageSkipsDetector<I, F>(path: string, image: I, d1: I -> Option<seq<F>>, d2: I -> Option<seq<F>>)
    requires !ValidatePath(path)
    ensures DetectImage(path, image, d1) == DetectImage(path, image, d2) == (image, [])
  {
  }

  /*** label_faces ***/

  /** `similarity > 0.5`: the two embeddings very likely show the same
      person. */
  predicate IsMatch<E>(similarity: (E, E) -> real, a: E, b: E) {
    similarity(a, b) > 0.5
  }

  /** The names of the saved faces that match `face`, in saved order. */
  function Matches<E>(face: E, saved: seq<(string, E)>, similarity: (E, E) -> real): seq<string>
    decreases |saved|
  {
    if saved == [] then []
    else
      var init, last := saved[..|saved| - 1], saved[|saved| - 1];
      Matches(face, init, similarity) + (if IsMatch(similarity, face, last.1) then [last.0] else [])
  }

  /** The matching names are exactly the names of the matching saved
      faces. */
  lemma {:induction false} MatchesMembers<E>(face: E, saved: seq<(string, E)>, similarity: (E, E) -> real)
    ensures forall n :: n in Matches(face, saved, similarity) ==>
      exists j :: 0 <= j < |saved| && saved[j].0 == n && IsMatch(similarity, face, saved[j].1)
    ensures forall j :: 0 <= j < |saved| && IsMatch(similarity, face, saved[j].1) ==> saved[j].0 in Matches(face, saved, similarity)
    decreases |saved|
  {
    if saved != [] {
      var init, last := saved[..|saved| - 1], saved[|saved| - 1];
      MatchesMembers(face, init, similarity);
      assert forall j :: 0 <= j < |init| ==> init[j] == saved[j];
    }
  }

  /** Matching names come in saved order: those of an earlier stretch of
      saved faces before those of a later one. */
  lemma {:induction false} MatchesConcat<E>(face: E, a: seq<(string, E)>, b: seq<(string, E)>, similarity: (E, E) -> real)
    ensures Matches(face, a + b, similarity) == Matches(face, a, similarity) + Matches(face, b, similarity)
    decreases |b|
  {
    if b == [] {
      assert a + b == a;
    } else {
      var init := b[..|b| - 1];
      MatchesConcat(face, a, init, similarity);
      assert (a + b)[..|a + b| - 1] == a + init;
    }
  }

  /** Every name as a label. */
  function Somes(ns: seq<string>): (r: seq<Option<string>>)
    ensures |r| == |ns| && forall i :: 0 <= i < |ns| ==> r[i] == Some(ns[i])
  {
    if ns == [] then [] else [Some(ns[0])] + Somes(ns[1..])
  }

  /** The labels one face adds: the name of every matching saved face, or
      one `None` when none matches. */
  function FaceLabels<E>(face: E, saved: seq<(string, E)>, similarity: (E, E) -> real): seq<Option<string>> {
    var names := Matches(face, saved, similarity);
    if names == [] then [None] else Somes(names)
  }

  /** A face adds at least one label, and more than one exactly when it
      matches several saved faces. */
  lemma FaceLabelsLength<E>(face: E, saved: seq<(string, E)>, similarity: (E, E) -> real)
    ensures |FaceLabels(face, saved, similarity)| >= 1
    ensures |FaceLabels(face, saved, similarity)| == 1 <==> |Matches(face, saved, similarity)| <= 1
  {
  }

  /** The one label of a face with at most one matching saved face. */
  function OnlyLabel(names: seq<string>): Option<string> {
    if names == [] then None else Some(names[0])
  }

  /** The labels of all the faces, face after face. */
  function Labels<E>(faces: seq<E>, saved: seq<(string, E)>, similarity: (E, E) -> real): (r: seq<Option<string>>)
    decreases |faces|
  {
    if faces == [] then []
    else Labels(faces[..|faces| - 1], saved, similarity) + FaceLabels(faces[|faces| - 1], saved, similarity)
  }

  /** `label_faces(face_embeddings)` with the saved faces, already read
      from the database and turned back into embeddings, and the
      similarity measure as parameters. */
  method LabelFaces<E>(faces: seq<E>, saved: seq<(string, E)>, similarity: (E, E) -> real) returns (faceLabels: seq<Option<string>>)
    ensures faceLabels == Labels(faces, saved, similarity)
  {
    faceLabels := [];
    var i := 0;
    while i < |faces|
      invariant 0 <= i <= |faces|
      invariant faceLabels == Labels(faces[..i], saved, similarity)
    {
      var face1 := faces[i];
      var before := faceLabels;
      var matchFound := false;
      ghost var names: seq<string> := [];
      var j := 0;
      while j < |saved|
        invariant 0 <= j <= |saved|
        invariant names == Matches(face1, saved[..j], similarity)
        invariant faceLabels == before + Somes(names)
        invariant matchFound <==> names != []
      {
        var (name, face2) := saved[j];
        assert saved[..j + 1][..j] == saved[..j];
        if similarity(face1, face2) > 0.5 {
          SomesSnoc(names, name);
          faceLabels := faceLabels + [Some(name)];
          matchFound := true;
          names := names + [name];
        }
        j := j + 1;
      }
      assert saved[..j] == saved;
      if !matchFound {
        faceLabels := faceLabels + [None];
      }
      LabelsStep(faces, i, saved, similarity);
      i := i + 1;
    }
    assert faces[..i] == faces;
  }

  lemma LabelsStep<E>(faces: seq<E>, i: nat, saved: seq<(string, E)>, similarity: (E, E) -> real)
    requires i < |faces|
    ensures Labels(faces[..i + 1], saved, similarity) == Labels(faces[..i], saved, similarity) + FaceLabels(faces[i], saved, similarity)
  {
    assert faces[..i + 1][..i] == faces[..i];
  }

  lemma SomesSnoc(ns: seq<string>, n: string)
    ensures Somes(ns + [n]) == Somes(ns) + [Some(n)]
  {
    var x, y := Somes(ns + [n]), Somes(ns) + [Some(n)];
    assert |x| == |y|;
    forall k | 0 <= k < |x| ensures x[k] == y[k] {
      assert (ns + [n])[k] == if k < |ns| then ns[k] else n;
    }
  }

  /** At least one label per face; exactly one per face when, and only
      when, no face matches two or more saved faces. Only then does the
      i-th label belong to the i-th face. */
  lemma {:induction false} LabelsLength<E>(faces: seq<E>, saved: seq<(string, E)>, similarity: (E, E) -> real)
    ensures |Labels(faces, saved, similarity)| >= |faces|
    ensures |Labels(faces, saved, similarity)| == |faces| <==> Unambiguous(faces, saved, similarity)
    decreases |faces|
  {
    if faces != [] {
      var init, last := faces[..|faces| - 1], faces[|faces| - 1];
      LabelsLength(init, saved, similarity);
      FaceLabelsLength(last, saved, similarity);
      assert |Labels(faces, saved, similarity)| == |Labels(init, saved, similarity)| + |FaceLabels(last, saved, similarity)|;
      assert faces == init + [last];
      UnambiguousSnoc(init, last, saved, similarity);
    }
  }

  /** Every face matches at most one saved face. */
  predicate Unambiguous<E>(faces: seq<E>, saved: seq<(string, E)>, similarity: (E, E) -> real) {
    forall i :: 0 <= i < |faces| ==> |Matches(faces[i], saved, similarity)| <= 1
  }

  lemma UnambiguousSnoc<E>(init: seq<E>, last: E, saved: seq<(string, E)>, similarity: (E, E) -> real)
    ensures Unambiguous(init + [last], saved, similarity) <==>
      Unambiguous(init, saved, similarity) && |Matches(last, saved, similarity)| <= 1
  {
    var faces := init + [last];
    assert forall i :: 0 <= i < |init| ==> init[i] == faces[i];
    assert faces[|init|] == last;
  }

  /** When every face matches at most one saved face, the labels line up
      with the faces: the matching name, or `None`. */
  lemma {:induction false} LabelsOnePerFace<E>(faces: seq<E>, saved: seq<(string, E)>, similarity: (E, E) -> real)
    requires Unambiguous(faces, saved, similarity)
    ensures |Labels(faces, saved, similarity)| == |faces|
    ensures forall i :: 0 <= i < |faces| ==>
      Labels(faces, saved, similarity)[i] == OnlyLabel(Matches(faces[i], saved, similarity))
    decreases |faces|
  {
    if faces != [] {
      var init, last := faces[..|faces| - 1], faces[|faces| - 1];
      assert faces == init + [last];
      UnambiguousSnoc(init, last, saved, similarity);
      LabelsOnePerFace(init, saved, similarity);
      var ns := Matches(last, saved, similarity);
      assert |ns| <= 1;
      assert FaceLabels(last, saved, similarity) == [OnlyLabel(ns)];
      var l := Labels(faces, saved, similarity);
      assert l == Labels(init, saved, similarity) + [OnlyLabel(ns)];
      forall i | 0 <= i < |faces| ensures l[i] == OnlyLabel(Matches(faces[i], saved, similarity)) {
        if i < |init| {
          assert init[i] == faces[i];
        }
      }
    }
  }

  /** With no saved faces every face gets a single `None`. */
  lemma {:induction false} LabelsWithoutSavedFaces<E>(faces: seq<E>, similarity: (E, E) -> real)
    ensures Labels(faces, [], similarity) == seq(|faces|, _ => None)
    decreases |faces|
  {
    if faces != [] {
      LabelsWithoutSavedFaces(faces[..|faces| - 1], similarity);
    }
  }

  /** Every name among the labels is the name of a saved face that
      matches one of the faces. */
  lemma {:induction false} LabelsAreMatchingNames<E>(faces: seq<E>, saved: seq<(string, E)>, similarity: (E, E) -> real)
    ensures forall l :: l in Labels(faces, saved, similarity) && l.Some? ==>
      exists i, j :: 0 <= i < |faces| && 0 <= j < |saved| && saved[j].0 == l.value && IsMatch(similarity, faces[i], saved[j].1)
    decreases |faces|
  {
    if faces != [] {
      var init, face := faces[..|faces| - 1], faces[|faces| - 1];
      LabelsAreMatchingNames(init, saved, similarity);
      assert forall i :: 0 <= i < |init| ==> init[i] == faces[i];
      forall l | l in FaceLabels(face, saved, similarity) && l.Some?
        ensures exists j :: 0 <= j < |saved| && saved[j].0 == l.value && IsMatch(similarity, face, saved[j].1)
      {
        var ns := Matches(face, saved, similarity);
        MatchesMembers(face, saved, similarity);
        var k :| 0 <= k < |Somes(ns)| && Somes(ns)[k] == l;
        assert ns[k] in ns;
      }
    }
  }

  /*** One label per face ***/

  /** A stand-in similarity under which face 0 resembles saved face 0
      and nothing else resembles anything. */
  function OnlyZeros(a: int, b: int): real {
    if a == 0 && b == 0 then 1.0 else 0.0
  }

  /** Two faces against two saved faces, where only the first face
      resembles both: the first face receives two labels, so the second
      face's position holds a name although it matches nobody, and its
      `None` is pushed past the end. */
  lemma LabelsMisaligned()
    ensures Matches(1, [("Alice", 0), ("Bob", 0)], OnlyZeros) == []
    ensures Labels([0, 1], [("Alice", 0), ("Bob", 0)], OnlyZeros) == [Some("Alice"), Some("Bob"), None]
  {
    var saved: seq<(string, int)> := [("Alice", 0), ("Bob", 0)];
    assert saved[..1] == [("Alice", 0)] && |saved[..1][..0]| == 0;
    assert Matches(0, saved[..1], OnlyZeros) == ["Alice"];
    assert Matches(0, saved, OnlyZeros) == ["Alice", "Bob"];
    assert Matches(1, saved[..1], OnlyZeros) == [];
    assert Matches(1, saved, OnlyZeros) == [];
    assert [0, 1][..1] == [0];
    assert |[0, 1][..1][..0]| == 0;
    assert Somes(["Alice", "Bob"]) == [Some("Alice"), Some("Bob")];
    assert Labels([0], saved, OnlyZeros) == [Some("Alice"), Some("Bob")];
  }

  /** Labels as the comments of `label_faces` mean them: one per face, in
      face order, the name of the first matching saved face or `None`. */
  function FirstMatchLabels<E>(faces: seq<E>, saved: seq<(string, E)>, similarity: (E, E) -> real): (r: seq<Option<string>>)
    ensures |r| == |faces|
    decreases |faces|
  {
    if faces == [] then []
    else FirstMatchLabels(faces[..|faces| - 1], saved, similarity) + [OnlyLabel(Matches(faces[|faces| - 1], saved, similarity))]
  }

  /** The i-th label is `None` exactly when the i-th face resembles no
      saved face, and otherwise names a saved face it resembles, the first
      one in saved order. */
  lemma {:induction false} FirstMatchLabelsAligned<E>(faces: seq<E>, saved: seq<(string, E)>, similarity: (E, E) -> real, i: nat)
    requires i < |faces|
    ensures FirstMatchLabels(faces, saved, similarity)[i].None? <==>
      forall j :: 0 <= j < |saved| ==> !IsMatch(similarity, faces[i], saved[j].1)
    ensures FirstMatchLabels(faces, saved, similarity)[i].Some? ==> (exists j :: (0 <= j < |saved| &&
      saved[j].0 == FirstMatchLabels(faces, saved, similarity)[i].value && IsMatch(similarity, faces[i], saved[j].1) &&
      forall k :: 0 <= k < j ==> !IsMatch(similarity, faces[i], saved[k].1)))
    decreases |faces|
  {
    var init := faces[..|faces| - 1];
    if i < |init| {
      FirstMatchLabelsAligned(init, saved, similarity, i);
      assert init[i] == faces[i];
    } else {
      FirstMatchOf(faces[i], saved, similarity);
    }
  }

  /** The first name `Matches` gives is that of the first matching saved
      face, and there is none when no saved face matches. */
  lemma {:induction false} FirstMatchOf<E>(face: E, saved: seq<(string, E)>, similarity: (E, E) -> real)
    ensures Matches(face, saved, similarity) == [] <==> forall j :: 0 <= j < |saved| ==> !IsMatch(similarity, face, saved[j].1)
    ensures Matches(face, saved, similarity) != [] ==> (exists j :: (0 <= j < |saved| &&
      saved[j].0 == Matches(face, saved, similarity)[0] && IsMatch(similarity, face, saved[j].1) &&
      forall k :: 0 <= k < j ==> !IsMatch(similarity, face, saved[k].1)))
    decreases |saved|
  {
    MatchesMembers(face, saved, similarity);
    if saved != [] && Matches(face, saved, similarity) != [] {
      var init, last := saved[..|saved| - 1], saved[|saved| - 1];
      FirstMatchOf(face, init, similarity);
      assert forall k :: 0 <= k < |init| ==> init[k] == saved[k];
      if Matches(face, init, similarity) != [] {
        var j :| 0 <= j < |init| && init[j].0 == Matches(face, init, similarity)[0] && IsMatch(similarity, face, init[j].1) &&
          forall k :: 0 <= k < j ==> !IsMatch(similarity, face, init[k].1);
        assert saved[j] == init[j];
      } else {
        assert IsMatch(similarity, face, last.1);
        assert saved[|saved| - 1].0 == Matches(face, saved, similarity)[0];
      }
    }
  }

  /** Where no face resembles two saved faces, `label_faces` as written
      already gives these labels. */
  lemma {:induction false} FirstMatchLabelsAgree<E>(faces: seq<E>, saved: seq<(string, E)>, similarity: (E, E) -> real)
    requires Unambiguous(faces, saved, similarity)
    ensures Labels(faces, saved, similarity) == FirstMatchLabels(faces, saved, similarity)
  {
    LabelsOnePerFace(faces, saved, similarity);
    var l, f := Labels(faces, saved, similarity), FirstMatchLabels(faces, saved, similarity);
    forall i | 0 <= i < |faces| ensures l[i] == f[i] {
      FirstMatchLabelsAt(faces, saved, similarity, i);
    }
  }

  lemma {:induction false} FirstMatchLabelsAt<E>(faces: seq<E>, saved: seq<(string, E)>, similarity: (E, E) -> real, i: nat)
    requires i < |faces|
    ensures FirstMatchLabels(faces, saved, similarity)[i] == OnlyLabel(Matches(faces[i], saved, similarity))
    decreases |faces|
  {
    var init := faces[..|faces| - 1];
    if i < |init| {
      FirstMatchLabelsAt(init, saved, similarity, i);
      assert init[i] == faces[i];
    }
  }
}
