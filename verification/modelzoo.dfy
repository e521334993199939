/**
 * The SuperAnimal model-zoo helpers: the file name of a snapshot, the rename
 * applied to the downloaded weights, and the remapping of the keys of an old
 * checkpoint's state dict to the current module names.
 */
module ModelZoo {
  import opened Wrappers
  import opened Dicts
  import opened Remapping

  // ---------------------------------------------------------------------------
  // Strings

  /** s.startswith(prefix) */
  predicate StartsWith(s: string, prefix: string) {
    |prefix| <= |s| && s[..|prefix|] == prefix
  }

  /** sub in s: sub occurs at some position of s. */
  predicate Contains(s: string, sub: string)
    decreases |s|
  {
    StartsWith(s, sub) || (s != [] && Contains(s[1..], sub))
  }

  /** A name that contains sub still contains it with anything put in front. */
  lemma {:induction false} ContainsAfterPrefix(front: string, s: string, sub: string)
    requires Contains(s, sub)
    ensures Contains(front + s, sub)
    decreases |front|
  {
    if front != [] {
      ContainsAfterPrefix(front[1..], s, sub);
      assert (front + s)[1..] == front[1..] + s;
    } else {
      assert front + s == s;
    }
  }

  /** A string that starts with sub contains it. */
  lemma StartsWithContains(s: string, sub: string)
    requires StartsWith(s, sub)
    ensures Contains(s, sub)
  {
  }

  /** No dot in s. */
  predicate Segment(s: string) {
    forall i :: 0 <= i < |s| ==> s[i] != '.'
  }

  /** s.split("."): the maximal dot-free pieces, one more than there are dots. */
  function Split(s: string): (parts: seq<string>)
    ensures |parts| >= 1
    ensures forall i :: 0 <= i < |parts| ==> Segment(parts[i])
  {
    if s == [] then [""]
    else
      var rest := Split(s[1..]);
      if s[0] == '.' then [""] + rest
      else [[s[0]] + rest[0]] + rest[1..]
  }

  /** ".".join(parts) */
  function Join(parts: seq<string>): string
    requires |parts| >= 1
  {
    if |parts| == 1 then parts[0] else parts[0] + "." + Join(parts[1..])
  }

  /** Joining the pieces of a split gives back the string. */
  lemma {:induction false} JoinSplit(s: string)
    ensures Join(Split(s)) == s
  {
    if s != [] {
      var rest := Split(s[1..]);
      JoinSplit(s[1..]);
      if s[0] != '.' {
        var head := [s[0]] + rest[0];
        if |rest| == 1 {
          assert Split(s) == [head];
        } else {
          assert Split(s)[1..] == rest[1..];
          assert Join(Split(s)) == head + "." + Join(rest[1..]);
        }
      }
    }
  }

  /** The pieces of a segment followed by a dot and more text. */
  lemma {:induction false} SplitSegmentDot(a: string, rest: string)
    requires Segment(a)
    ensures Split(a + "." + rest) == [a] + Split(rest)
    decreases |a|
  {
    if a == [] {
      assert ("" + "." + rest)[1..] == rest;
    } else {
      SplitSegmentDot(a[1..], rest);
      assert (a + "." + rest)[1..] == a[1..] + "." + rest;
      assert [a[0]] + a[1..] == a;
    }
  }

  /** A dot-free string splits into itself alone. */
  lemma {:induction false} SplitSegment(a: string)
    requires Segment(a)
    ensures Split(a) == [a]
    decreases |a|
  {
    if a != [] {
      SplitSegment(a[1..]);
      assert [a[0]] + a[1..] == a;
    }
  }

  /** Splitting a join of dot-free pieces gives back the pieces. */
  lemma {:induction false} SplitJoin(parts: seq<string>)
    requires |parts| >= 1
    requires forall i :: 0 <= i < |parts| ==> Segment(parts[i])
    ensures Split(Join(parts)) == parts
  {
    if |parts| == 1 {
      SplitSegment(parts[0]);
    } else {
      SplitJoin(parts[1..]);
      SplitSegmentDot(parts[0], Join(parts[1..]));
    }
  }

  // ---------------------------------------------------------------------------
  // _map_model_keys

  /** Prefixes of the checkpoint entries of modules the current backbone no longer has. */
  const DOWNSAMP_MODULES: string := "backbone.model.downsamp_modules."
  const FINAL_LAYER: string := "backbone.model.final_layer"
  const CLASSIFIER: string := "backbone.model.classifier"

  /** The first four segments of the keys of the old heatmap head. */
  const OLD_HEAD: seq<string> := ["heads", "bodypart", "heatmap_head", "model"]

  /** What replaces segment 3 of the old heatmap head's keys. */
  const NEW_HEAD_SEGMENT: string := "deconv_layers.0"

  /** The key starts with one of the dropped prefixes. */
  predicate Dropped(key: string) {
    StartsWith(key, DOWNSAMP_MODULES) || StartsWith(key, FINAL_LAYER) || StartsWith(key, CLASSIFIER)
  }

  /** The segments of a key of the old heatmap head. */
  predicate OldHeadKey(parts: seq<string>) {
    parts[..if |parts| < 4 then |parts| else 4] == OLD_HEAD
  }

  /** The key a kept entry is stored under. */
  function MappedKey(key: string): string {
    var parts := Split(key);
    Join(if OldHeadKey(parts) then parts[3 := NEW_HEAD_SEGMENT] else parts)
  }

  /** Keys outside the old heatmap head are stored verbatim. */
  lemma MappedKeyVerbatim(key: string)
    requires !OldHeadKey(Split(key))
    ensures MappedKey(key) == key
  {
    JoinSplit(key);
  }

  /**
   * A key of the old heatmap head has its segment 3, "model", replaced by
   * "deconv_layers" followed by a new segment "0"; all other segments are
   * kept in place.
   */
  lemma MappedKeyRewritesHead(key: string)
    requires OldHeadKey(Split(key))
    ensures var parts := Split(key);
      var mapped := Split(MappedKey(key));
      && |parts| >= 4
      && mapped == parts[..3] + ["deconv_layers", "0"] + parts[4..]
      && mapped[3] == "deconv_layers" && mapped[3] != OLD_HEAD[3]
  {
    var parts := Split(key);
    var written := parts[..3] + ["deconv_layers", "0"] + parts[4..];
    assert Join(parts[3 := NEW_HEAD_SEGMENT]) == Join(written) by {
      JoinHeadSegment(parts);
    }
    forall i | 0 <= i < |written| ensures Segment(written[i]) {
      if i >= 5 {
        assert written[i] == parts[i - 1];
      } else if i < 3 {
        assert written[i] == parts[i];
      }
    }
    SplitJoin(written);
  }

  /** Joining with "deconv_layers.0" as segment 3 is joining with two segments in its place. */
  lemma JoinHeadSegment(parts: seq<string>)
    requires |parts| >= 4
    ensures Join(parts[3 := NEW_HEAD_SEGMENT]) == Join(parts[..3] + ["deconv_layers", "0"] + parts[4..])
  {
    var p := parts[3 := NEW_HEAD_SEGMENT];
    var q := parts[..3] + ["deconv_layers", "0"] + parts[4..];
    assert Join(p[3..]) == Join(q[3..]) by {
      assert NEW_HEAD_SEGMENT == "deconv_layers" + "." + "0";
      if |parts| == 4 {
        assert q[3..] == ["deconv_layers", "0"];
        assert Join(q[3..][1..]) == "0";
      } else {
        assert p[3..][1..] == parts[4..] && q[3..][1..][1..] == parts[4..];
        assert Join(q[3..][1..]) == "0" + "." + Join(parts[4..]);
      }
    }
    JoinCommonFront(p, q, 3);
  }

  /** Lists that agree on their first i pieces and whose rests join alike join alike. */
  lemma {:induction false} JoinCommonFront(a: seq<string>, b: seq<string>, i: nat)
    requires i < |a| && i < |b| && a[..i] == b[..i]
    requires Join(a[i..]) == Join(b[i..])
    ensures Join(a) == Join(b)
  {
    if i > 0 {
      assert a[1..][..i - 1] == a[..i][1..] && b[1..][..i - 1] == b[..i][1..];
      assert a[1..][i - 1..] == a[i..] && b[1..][i - 1..] == b[i..];
      JoinCommonFront(a[1..], b[1..], i - 1);
      assert a[0] == b[0];
    } else {
      assert a[0..] == a && b[0..] == b;
    }
  }

  /** A kept key is stored under a key that is kept and stored under itself. */
  lemma MappedKeyIdempotent(key: string)
    requires !Dropped(key)
    ensures !Dropped(MappedKey(key))
    ensures MappedKey(MappedKey(key)) == MappedKey(key)
  {
    var mapped := MappedKey(key);
    if OldHeadKey(Split(key)) {
      MappedKeyRewritesHead(key);
      var parts := Split(mapped);
      assert !OldHeadKey(parts) by {
        assert parts[..4][3] == "deconv_layers";
      }
      MappedKeyVerbatim(mapped);
      assert mapped[0] == 'h' by {
        JoinSplit(mapped);
        assert mapped == Join(parts);
        assert Join(parts) == "heads" + "." + Join(parts[1..]);
      }
      assert DOWNSAMP_MODULES[0] == FINAL_LAYER[0] == CLASSIFIER[0] == 'b';
    } else {
      MappedKeyVerbatim(key);
    }
  }

  /** _map_model_keys(state_dict) */
  function MapModelKeys<V>(stateDict: Dict<V>): (r: Dict<V>)
    requires stateDict.Valid()
    ensures r.Valid()
  {
    RemappedPrefixValid(stateDict, Dropped, MappedKey, |stateDict.keys|);
    RemappedPrefix(stateDict, Dropped, MappedKey, |stateDict.keys|)
  }

  /**
   * _map_model_keys: walks the entries in order, skips the dropped ones and
   * stores every other value under its key, with segment 3 of the old
   * heatmap head's keys rewritten.
   */
  method MapModelKeysLoop<V>(stateDict: Dict<V>) returns (updated: Dict<V>)
    requires stateDict.Valid()
    ensures updated == MapModelKeys(stateDict)
  {
    updated := Empty();
    for t := 0 to |stateDict.keys|
      invariant updated == RemappedPrefix(stateDict, Dropped, MappedKey, t)
    {
      updated := MapEntry(stateDict, t, updated);
    }
  }

  /** One pass of the loop: the entry at position t is skipped or stored under its mapped key. */
  method MapEntry<V>(stateDict: Dict<V>, t: nat, updated: Dict<V>) returns (next: Dict<V>)
    requires stateDict.Valid() && t < |stateDict.keys|
    requires updated == RemappedPrefix(stateDict, Dropped, MappedKey, t)
    ensures next == RemappedPrefix(stateDict, Dropped, MappedKey, t + 1)
  {
    var k := stateDict.keys[t];
    var v := stateDict.entries[k];
    next := updated;
    if !Dropped(k) {
      var mapped := MapKey(k);
      next := updated.Put(mapped, v);
    }
  }

  /** The key a kept entry is stored under: segment 3 of an old heatmap head key is rewritten. */
  method MapKey(k: string) returns (mapped: string)
    ensures mapped == MappedKey(k)
  {
    var parts := Split(k);
    if OldHeadKey(parts) {
      parts := parts[3 := NEW_HEAD_SEGMENT];
    }
    mapped := Join(parts);
  }

  /**
   * The keys of _map_model_keys(state_dict): no key has a dropped prefix, and
   * each is the mapped key of a kept source key whose value it carries; the
   * mapped key of every kept source key is present, and no dropped key is; a
   * source key that no other kept key maps onto keeps its own value.
   */
  lemma MapModelKeysSpec<V>(stateDict: Dict<V>)
    requires stateDict.Valid()
    ensures var r := MapModelKeys(stateDict);
      && (forall k' :: k' in r.entries ==> !Dropped(k'))
      && (forall k' :: k' in r.entries ==>
            exists k :: k in stateDict.entries && !Dropped(k) && MappedKey(k) == k' && r.entries[k'] == stateDict.entries[k])
      && (forall k :: k in stateDict.entries && !Dropped(k) ==> MappedKey(k) in r.entries)
      && (forall k :: k in stateDict.entries && Dropped(k) ==> k !in r.entries)
      && (forall k :: k in stateDict.entries && !Dropped(k) &&
                      (forall k2 :: k2 in stateDict.entries && !Dropped(k2) && k2 != k ==> MappedKey(k2) != MappedKey(k)) ==>
                      r.entries[MappedKey(k)] == stateDict.entries[k])
  {
    MappedKeysKept(stateDict);
    RemappedKept(stateDict, Dropped, MappedKey);
    RemappedUnshared(stateDict, Dropped, MappedKey);
    var r := MapModelKeys(stateDict);
    forall k' | k' in r.entries
      ensures !Dropped(k')
      ensures exists k :: k in stateDict.entries && !Dropped(k) && MappedKey(k) == k' && r.entries[k'] == stateDict.entries[k]
    {
      var k := RemappedSource(stateDict, Dropped, MappedKey, k');
    }
  }

  /** A kept key is mapped to a kept key that mapping leaves alone. */
  lemma MappedKeysKept<V>(stateDict: Dict<V>)
    ensures forall k :: k in stateDict.entries && !Dropped(k) ==>
      !Dropped(MappedKey(k)) && MappedKey(MappedKey(k)) == MappedKey(k)
  {
    forall k | k in stateDict.entries && !Dropped(k)
      ensures !Dropped(MappedKey(k)) && MappedKey(MappedKey(k)) == MappedKey(k)
    {
      MappedKeyIdempotent(k);
    }
  }

  /** Remapping a remapped state dict changes nothing. */
  lemma MapModelKeysIdempotent<V>(stateDict: Dict<V>)
    requires stateDict.Valid()
    ensures MapModelKeys(MapModelKeys(stateDict)) == MapModelKeys(stateDict)
  {
    MappedKeysKept(stateDict);
    RemappedIdempotent(stateDict, Dropped, MappedKey);
  }


  // ---------------------------------------------------------------------------
  // Snapshot names and the download rename

  /** f"{dataset}_{model_name}": the name of a SuperAnimal model on the hub. */
  function ModelName(dataset: string, modelName: string): (name: string)
    ensures |name| == |dataset| + 1 + |modelName|
    ensures StartsWith(name, dataset) && name[|dataset|] == '_' && name[|dataset| + 1..] == modelName
  {
    dataset + "_" + modelName
  }

  /** f"{dataset}_{model_name}.pt": the file a SuperAnimal snapshot is stored in. */
  function SnapshotFileName(dataset: string, modelName: string): (file: string)
    ensures |file| == |ModelName(dataset, modelName)| + 3
    ensures file[..|file| - 3] == ModelName(dataset, modelName) && file[|file| - 3..] == ".pt"
  {
    ModelName(dataset, modelName) + ".pt"
  }

  const HRNET_W32: string := "hrnet_w32"
  const FASTERRCNN: string := "fasterrcnn_resnet50_fpn_v2"

  /** The file the hub stores the weights of the model in, when it differs from the snapshot file. */
  function RenameMapping(name: string): (r: Option<map<string, string>>)
  {
    if Contains(name, HRNET_W32) then Some(map["pose_model.pth" := name + ".pt"])
    else if Contains(name, FASTERRCNN) then Some(map["detector.pt" := name + ".pt"])
    else None
  }

  /** What download_super_animal_snapshot does with a model once the hub has been asked for it. */
  datatype Download = Download(repository: string, renameMapping: Option<map<string, string>>,
                               snapshotFile: string, parseSnapshot: bool)

  /**
   * download_super_animal_snapshot without its I/O: the hub repository, the
   * rename of the downloaded file, the snapshot file it must produce and
   * whether its keys are then remapped.
   */
  function DownloadPlan(dataset: string, modelName: string): (d: Download)
    ensures d.snapshotFile == SnapshotFileName(dataset, modelName)
  {
    var name := ModelName(dataset, modelName);
    Download(name, RenameMapping(name), name + ".pt",
             Contains(name, HRNET_W32) || Contains(name, FASTERRCNN))
  }

  /**
   * The downloaded snapshot is the file get_super_animal_snapshot_path looks
   * for; a rename, when there is one, renames a single hub file to exactly
   * that file, and the snapshot's keys are remapped exactly when the file
   * was renamed. Which file is renamed is decided on the composed model
   * name: pose_model.pth when it mentions hrnet_w32, otherwise detector.pt
   * when it mentions fasterrcnn_resnet50_fpn_v2, otherwise none.
   */
  lemma DownloadPlanSpec(dataset: string, modelName: string)
    ensures var d := DownloadPlan(dataset, modelName);
      && d.repository == ModelName(dataset, modelName)
      && d.snapshotFile == SnapshotFileName(dataset, modelName)
      && (d.parseSnapshot <==> d.renameMapping.Some?)
      && (d.renameMapping.Some? ==>
            exists source :: d.renameMapping.value == map[source := d.snapshotFile] &&
                             (source == "pose_model.pth" || source == "detector.pt"))
    ensures var name := ModelName(dataset, modelName);
      var d := DownloadPlan(dataset, modelName);
      && (Contains(name, HRNET_W32) ==>
            d.renameMapping == Some(map["pose_model.pth" := name + ".pt"]))
      && (!Contains(name, HRNET_W32) && Contains(name, FASTERRCNN) ==>
            d.renameMapping == Some(map["detector.pt" := name + ".pt"]))
      && (!Contains(name, HRNET_W32) && !Contains(name, FASTERRCNN) ==>
            d.renameMapping.None? && !d.parseSnapshot)
  {
    var d := DownloadPlan(dataset, modelName);
    if d.renameMapping.Some? {
      var source := if Contains(d.repository, HRNET_W32) then "pose_model.pth" else "detector.pt";
      assert d.renameMapping.value == map[source := d.snapshotFile];
    }
  }

  /**
   * A model whose own name mentions hrnet_w32 gets its pose_model.pth renamed
   * to the snapshot file, whatever the dataset.
   */
  lemma HrnetRename(dataset: string, modelName: string)
    requires Contains(modelName, HRNET_W32)
    ensures DownloadPlan(dataset, modelName).renameMapping ==
            Some(map["pose_model.pth" := SnapshotFileName(dataset, modelName)])
    ensures DownloadPlan(dataset, modelName).parseSnapshot
  {
    ContainsAfterPrefix(dataset + "_", modelName, HRNET_W32);
  }
}
