// scripts/ensure-rootfs.py: reuse a verified rootfs from the cache, or build one in the
// Buildroot tree, cleaning the tree first unless the stamp says that is not needed. A run may
// fail or be stopped between any two steps, and in the middle of writing any file.
//
// Digests are modelled as injective: a recorded digest is the digested content itself.
module Rootfs {
  import opened Text

  // ---- Requested configurations ---------------------------------------------------------------

  type Config = seq<string>

  predicate IsSetting(line: string) {
    "BR2_" <= line && Find(line, '=') < |line|
  }

  // The settings of a configuration; a later line for the same symbol wins.
  function Values(config: Config): map<string, string> {
    if config == [] then map[]
    else
      var line := config[|config| - 1];
      var before := Values(config[..|config| - 1]);
      if IsSetting(line) then before[line[..Find(line, '=')] := line[Find(line, '=') + 1..]] else before
  }

  // A line that sets key, whatever to.
  ghost predicate Sets(line: string, key: string) {
    key + "=" <= line
  }

  lemma SetsIs(line: string, key: string)
    requires "BR2_" <= key && Without(key, '=')
    ensures Sets(line, key) <==> IsSetting(line) && line[..Find(line, '=')] == key
    ensures Sets(line, key) ==> line == key + "=" + line[Find(line, '=') + 1..]
  {
    var f := Find(line, '=');
    FindIs(line, '=');
    assert f < |line| ==> line == line[..f] + "=" + line[f + 1..];
    if Sets(line, key) {
      assert line == key + ['='] + line[|key| + 1..];
      FindAt(key, '=', line[|key| + 1..]);
      assert line[..4] == key[..4];
    }
  }

  // A symbol has a value exactly when some line sets it, and the last such line decides.
  lemma {:induction false} ValuesAre(config: Config, key: string)
    requires "BR2_" <= key && Without(key, '=')
    ensures key in Values(config) <==> exists i :: 0 <= i < |config| && Sets(config[i], key)
    ensures forall i :: 0 <= i < |config| && Sets(config[i], key) &&
                        (forall j :: i < j < |config| ==> !Sets(config[j], key)) ==>
              key in Values(config) && config[i] == key + "=" + Values(config)[key]
  {
    hide Sets, IsSetting;
    if config != [] {
      ValuesAre(config[..|config| - 1], key);
      SetsIs(config[|config| - 1], key);
    }
  }

  const INTEGRATION: set<string> := {"BR2_ROOTFS_OVERLAY", "BR2_PACKAGE_BUSYBOX_CONFIG_FRAGMENT_FILES"}

  // The packages a build of the configuration installs.
  ghost function Selected(config: Config): set<string> {
    var v := Values(config);
    set k | k in v && "BR2_PACKAGE_" <= k && v[k] == "y" && k !in INTEGRATION
  }

  // The other settings: a change of these does not take effect in a tree already built with
  // different ones.
  ghost function Base(config: Config): map<string, string> {
    var v := Values(config);
    map k | k in v && k !in INTEGRATION && k !in Selected(config) :: v[k]
  }

  // same_config of two configurations, in the test for additive changes.
  predicate Additive(before: map<string, string>, after: map<string, string>) {
    && (forall k | k in before :: k in INTEGRATION || (k in after && after[k] == before[k]))
    && (forall k | k in after :: k in before || k in INTEGRATION || ("BR2_PACKAGE_" <= k && after[k] == "y"))
  }

  // A change a tree may be kept for: apart from the overlay and the BusyBox fragment, every
  // symbol that had a value keeps it, and a new one selects a package.
  ghost predicate Compatible(before: map<string, string>, after: map<string, string>) {
    forall k: string :: k != "BR2_ROOTFS_OVERLAY" && k != "BR2_PACKAGE_BUSYBOX_CONFIG_FRAGMENT_FILES" ==>
      if k in before then k in after && after[k] == before[k]
      else k in after ==> "BR2_PACKAGE_" <= k && after[k] == "y"
  }

  lemma AdditiveIsCompatible(before: map<string, string>, after: map<string, string>)
    ensures Additive(before, after) <==> Compatible(before, after)
  {
  }

  // Such a change drops no package and touches no other setting, and it is the only kind of
  // change that does neither.
  lemma CompatibleIff(before: Config, after: Config)
    ensures Compatible(Values(before), Values(after)) <==>
            Selected(before) <= Selected(after) && Base(before) == Base(after)
  {
    hide Values;
    if Compatible(Values(before), Values(after)) {
      KeepsBase(before, after);
    } else if Selected(before) <= Selected(after) && Base(before) == Base(after) {
      SameBaseIsCompatible(before, after);
    }
  }

  lemma KeepsBase(before: Config, after: Config)
    requires Compatible(Values(before), Values(after))
    ensures Selected(before) <= Selected(after) && Base(before) == Base(after)
  {
    hide Values;
    assert forall k :: k in Base(before) <==> k in Base(after);
  }

  lemma SameBaseIsCompatible(before: Config, after: Config)
    requires Selected(before) <= Selected(after) && Base(before) == Base(after)
    ensures Compatible(Values(before), Values(after))
  {
    hide Values;
    var b, a := Values(before), Values(after);
    forall k: string | k !in INTEGRATION
      ensures if k in b then k in a && a[k] == b[k] else k in a ==> "BR2_PACKAGE_" <= k && a[k] == "y"
    {
      assert k in b && k !in Selected(before) <==> k in Base(before);
      assert k in a && k !in Selected(after) <==> k in Base(after);
      assert k in Base(before) ==> Base(before)[k] == b[k] && Base(after)[k] == a[k];
    }
  }

  // ---- Files and cache entries ------------------------------------------------------------------

  // A file that is absent, was cut short while being written, or is complete.
  datatype File<T> = Missing | Torn | Whole(value: T)

  // Everything the cache key covers: the requested fragment, and the sources it is built from.
  datatype Identity = Identity(config: Config, sources: string)

  // What is installed in the output of Buildroot, and what it was built with, if with anything.
  datatype Tree = Tree(packages: set<string>, base: Option<map<string, string>>)

  datatype Image = Image(packages: set<string>, base: map<string, string>)

  const EMPTY: Tree := Tree({}, None)

  // A build adds the selected packages; the other settings stay those of the first build.
  ghost function BuiltIn(tree: Tree, config: Config): (built: Tree)
    ensures built.base.Some?
  {
    Tree(tree.packages + Selected(config), if tree.base.Some? then tree.base else Some(Base(config)))
  }

  ghost function ImageOf(tree: Tree): Image
    requires tree.base.Some?
  {
    Image(tree.packages, tree.base.value)
  }

  // The image the configuration asks for.
  ghost function ImageFor(config: Config): Image {
    Image(Selected(config), Base(config))
  }

  // Nothing in the tree is in the way of a build for config.
  ghost predicate Fits(tree: Tree, config: Config) {
    tree.packages <= Selected(config) && (tree.base == None || tree.base == Some(Base(config)))
  }

  // A build of config that began in the tree before, stopped somewhere.
  ghost predicate Underway(before: Tree, now: Tree, config: Config) {
    && before.packages <= now.packages <= before.packages + Selected(config)
    && (now.base == before.base || now.base == BuiltIn(before, config).base)
  }

  // Where a build for config began in a fitting tree, or a clean in any tree, the tree fits
  // wherever that was stopped.
  lemma StillFits(before: Tree, now: Tree, config: Config)
    requires Fits(before, config)
    ensures Underway(before, now, config) ==> Fits(now, config)
    ensures now.packages <= before.packages && (now.base == None || now.base == before.base) ==> Fits(now, config)
    ensures Fits(BuiltIn(before, config), config)
  {
  }

  lemma FittingBuild(tree: Tree, config: Config)
    ensures Fits(tree, config) ==> ImageOf(BuiltIn(tree, config)) == ImageFor(config)
    ensures Fits(EMPTY, config)
  {
  }

  datatype Manifest = Manifest(identity: Identity, image: Image, busybox: Option<seq<string>>, features: seq<string>)

  datatype Entry = Entry(manifest: File<Manifest>, image: File<Image>, busybox: File<seq<string>>)

  // The record was written by a version that verified the BusyBox configuration.
  ghost predicate Verified(m: Manifest) {
    m.features != [] && m.busybox.Some?
  }

  // The checks before a cached image is used.
  ghost predicate Intact(entry: Entry, id: Identity) {
    && entry.manifest.Whole?
    && var m := entry.manifest.value;
    && m.identity == id && entry.image == Whole(m.image)
    && m.busybox.Some? && entry.busybox == Whole(m.busybox.value)
  }

  datatype Outcome = Reused | Built | Failed | Stopped

  predicate Finished(outcome: Outcome) { outcome == Reused || outcome == Built }

  // The stamp and the earlier requests allow the tree to be kept for config.
  ghost predicate StampAllows(stamp: File<Config>, requested: set<Config>, config: Config) {
    && stamp.Whole?
    && (stamp.value == config || (stamp.value in requested && Compatible(Values(stamp.value), Values(config))))
  }

  lemma AllowedTree(stamp: File<Config>, requested: set<Config>, config: Config)
    requires StampAllows(stamp, requested, config)
    ensures stamp.Whole? && forall tree :: Fits(tree, stamp.value) ==> Fits(tree, config)
  {
    CompatibleIff(stamp.value, config);
  }

  // A copy into the cache was stopped before the manifest was written: no later run for the
  // identity can finish.
  ghost predicate Stuck(cache: map<Identity, Entry>, id: Identity) {
    id in cache && !cache[id].manifest.Whole?
  }

  // How a run ends that nothing disturbs: a verified entry is used, or refused if it is not
  // intact; without one a build is made.
  ghost function Verdict(cache: map<Identity, Entry>, id: Identity): Outcome {
    if Stuck(cache, id) then Failed
    else if id !in cache || !Verified(cache[id].manifest.value) then Built
    else if Intact(cache[id], id) then Reused
    else Failed
  }

  // An entry that later runs for the identity will use.
  ghost predicate Lasting(cache: map<Identity, Entry>, id: Identity) {
    id in cache && Intact(cache[id], id) && Verified(cache[id].manifest.value)
  }

  ghost predicate SameBut(was: map<Identity, Entry>, now: map<Identity, Entry>, id: Identity) {
    forall other :: other != id ==>
      (other in now <==> other in was) && (other in now ==> now[other] == was[other])
  }

  // The record names every line the build was to have, and the build has them.
  ghost predicate Featured(manifest: File<Manifest>, required: seq<string>) {
    && manifest.Whole? && manifest.value.features == required && manifest.value.busybox.Some?
    && forall line :: line in required ==> line in manifest.value.busybox.value
  }

  class Checkout {
    var stamp: File<Config>          // .raptor-rootfs-config in the Buildroot tree
    var tree: Tree                   // its output
    var image: File<Image>           // its rootfs.cpio.gz
    var output: File<Image>          // initramfs-buildroot.cpio.gz
    var legacy: File<Config>         // initramfs-buildroot.stamp
    var manifest: File<Manifest>     // initramfs-buildroot.manifest.json
    var cache: map<Identity, Entry>  // dist/.rootfs-cache
    var requested: set<Config>       // contents of every requested.config below it

    // Commands that failed and stops, which a run does not control.
    ghost var trouble: nat

    // What every run keeps, finished or not.
    ghost predicate Valid()
      reads this
    {
      && (stamp.Missing? ==> tree == EMPTY && image.Missing?)
      && (stamp.Whole? ==> Fits(tree, stamp.value))
      && forall id :: id in cache && cache[id].manifest.Whole? ==> Sound(id, cache[id].manifest.value)
    }

    constructor ()
      ensures Valid() && cache == map[] && stamp.Missing?
    {
      stamp, tree, image := Missing, EMPTY, Missing;
      output, legacy, manifest := Missing, Missing, Missing;
      cache, requested := map[], {};
      trouble := 0;
    }

    // One run of the script. required are the CONFIG_ lines of rootfs/busybox.fragment. kept
    // tells whether a build was started in the tree as it was.
    method Ensure(config: Config, sources: string, required: seq<string>) returns (outcome: Outcome, kept: bool)
      modifies this
      ensures old(Valid()) ==> Valid()
      ensures Finished(outcome) && old(Valid()) ==> Delivers(config, sources)
      ensures outcome == Built ==> tree == BuiltIn(if kept then old(tree) else EMPTY, config)
      ensures outcome == Built ==> output == Whole(ImageOf(tree)) && stamp == Whole(config)
      ensures kept && old(Valid()) ==> StampAllows(old(stamp), old(requested), config) && Fits(old(tree), config)
      ensures outcome == Built && (old(Valid()) || !old(stamp).Missing?) ==>
                (kept <==> StampAllows(old(stamp), old(requested), config))
      ensures outcome == Built ==> Featured(manifest, required)
      ensures outcome == Reused ==> tree == old(tree) && stamp == old(stamp) && cache == old(cache)
      ensures var id := Identity(config, sources);
              && SameBut(old(cache), cache, id)
              && (Lasting(old(cache), id) ==> cache == old(cache))
              && (Finished(outcome) ==>
                    id in cache && Intact(cache[id], id) && output == cache[id].image && manifest == cache[id].manifest)
              && (outcome == Reused || (outcome == Built && required != []) ==> Lasting(cache, id))
      ensures trouble >= old(trouble)
      ensures trouble == old(trouble) ==> outcome == Verdict(old(cache), Identity(config, sources))
      ensures trouble > old(trouble) ==> !Finished(outcome)
      ensures Stuck(old(cache), Identity(config, sources)) ==>
                !Finished(outcome) && Stuck(cache, Identity(config, sources))
    {
      hide StampAllows, Fits, ImageFor, BuiltIn, Intact, Featured;
      var id := Identity(config, sources);
      kept := false;
      if id in cache && cache[id].manifest.Torn? {
        return Failed, kept;
      }
      if id in cache && cache[id].manifest.Whole? &&
         (cache[id].manifest.value.features == [] || cache[id].manifest.value.busybox.None?) {
        cache := cache - {id};
        if * {
          outcome := Stop();
          return;
        }
      }
      if id in cache && !cache[id].manifest.Missing? {
        outcome := UseCache(id);
        return outcome, kept;
      }
      outcome, kept := BuildAnew(id, required);
    }

    // The run from where there is no cache entry to use.
    method BuildAnew(id: Identity, required: seq<string>) returns (outcome: Outcome, kept: bool)
      requires id in cache ==> cache[id].manifest.Missing?
      modifies this
      ensures old(Valid()) ==> Valid()
      ensures trouble >= old(trouble) && outcome != Reused
      ensures if trouble > old(trouble) then outcome != Built else outcome == if id in old(cache) then Failed else Built
      ensures outcome == Built ==> tree == BuiltIn(if kept then old(tree) else EMPTY, id.config)
      ensures outcome == Built ==> output == Whole(ImageOf(tree)) && stamp == Whole(id.config)
      ensures outcome == Built && old(Valid()) ==> Delivers(id.config, id.sources)
      ensures kept && old(Valid()) ==> StampAllows(old(stamp), old(requested), id.config) && Fits(old(tree), id.config)
      ensures outcome == Built && (old(Valid()) || !old(stamp).Missing?) ==>
                (kept <==> StampAllows(old(stamp), old(requested), id.config))
      ensures SameBut(old(cache), cache, id) && (id in old(cache) ==> cache == old(cache))
      ensures outcome == Built ==>
                id in cache && Intact(cache[id], id) && output == cache[id].image && manifest == cache[id].manifest
      ensures outcome == Built && required != [] ==> Lasting(cache, id)
      ensures outcome == Built ==> Featured(manifest, required)
    {
      hide StampAllows, Fits, ImageFor, BuiltIn, Intact, Verified, Lasting, Featured;
      kept := false;
      var same := Reusable(id.config);
      if !same {
        ghost var before := tree;
        var cleaned := Clean();
        if stamp.Whole? && Fits(before, stamp.value) {
          StillFits(before, tree, stamp.value);
        }
        if cleaned != Built {
          return cleaned, kept;
        }
      }
      if StampAllows(stamp, requested, id.config) {
        AllowedTree(stamp, requested, id.config);
      }
      FittingBuild(tree, id.config);
      ghost var before := tree;
      kept := same;
      outcome := StampAndBuild(id.config);
      if Fits(before, id.config) {
        StillFits(before, tree, id.config);
      }
      if outcome == Built {
        outcome := Publish(id, required);
      }
    }

    // Removing the clone; the cache and the outputs are elsewhere.
    method Reclone()
      modifies this`stamp, this`tree, this`image
      ensures old(Valid()) ==> Valid()
      ensures stamp.Missing? && tree == EMPTY && image.Missing?
    {
      stamp, tree, image := Missing, EMPTY, Missing;
    }

    // A run for the other word width: the cache directory and so its requested configurations
    // are shared, but every identity and every other file is of one width.
    method OtherWidth(config: Config)
      modifies this`requested
      ensures old(Valid()) ==> Valid()
      ensures requested == old(requested) + {config}
    {
      requested := requested + {config};
    }

    // A cached file other than the manifest going bad.
    method Damage(id: Identity, badImage: File<Image>, badBusybox: File<seq<string>>)
      modifies this`cache
      ensures old(Valid()) ==> Valid()
      ensures cache == if id in old(cache) then old(cache)[id := Entry(old(cache)[id].manifest, badImage, badBusybox)]
                       else old(cache)
    {
      if id in cache {
        cache := cache[id := Entry(cache[id].manifest, badImage, badBusybox)];
      }
    }

    // make make_initramfs_buildroot by hand: it builds in the tree and leaves the stamp alone.
    // What every run keeps survives it exactly when it selects nothing the stamp does not, and
    // does not start an empty tree with other settings; or when the stamp is of no use anyway.
    method MakeByHand(config: Config)
      modifies this`tree, this`image, this`output, this`legacy
      ensures tree == BuiltIn(old(tree), config)
      ensures image == output == Whole(ImageOf(tree)) && legacy == Whole(config)
      ensures old(Valid()) ==>
                (Valid() <==>
                  stamp.Torn? ||
                  (stamp.Whole? && Selected(config) <= Selected(stamp.value) &&
                   (old(tree).base.Some? || Base(config) == Base(stamp.value))))
    {
      tree := Make(config);
      image := ImageFile();
      output := image;
      legacy := Whole(config);
    }

    // The output is the image of the configuration, and the manifest beside it says so.
    ghost predicate Delivers(config: Config, sources: string)
      reads this
    {
      && output == Whole(ImageFor(config))
      && manifest.Whole? && manifest.value.identity == Identity(config, sources)
      && manifest.value.image == output.value
    }

    method UseCache(id: Identity) returns (outcome: Outcome)
      requires id in cache && cache[id].manifest.Whole?
      modifies this`output, this`legacy, this`manifest, this`trouble
      ensures outcome != Built
      ensures trouble == old(trouble) ==> outcome == if Intact(cache[id], id) then Reused else Failed
      ensures trouble >= old(trouble) && (trouble > old(trouble) ==> outcome != Reused)
      ensures outcome == Reused ==> Intact(cache[id], id) && output == cache[id].image && manifest == cache[id].manifest
    {
      var entry, record := cache[id], cache[id].manifest.value;
      if record.identity != id || entry.image != Whole(record.image) ||
         record.busybox.None? || entry.busybox != Whole(record.busybox.value) {
        return Failed;
      }
      if * {
        if * {
          output := Torn;
        }
        outcome := Stop();
        return;
      }
      output := cache[id].image;
      if * {
        if * {
          legacy := Torn;
        }
        outcome := Stop();
        return;
      }
      legacy := Whole(id.config);
      if * {
        if * {
          manifest := Torn;
        }
        outcome := Stop();
        return;
      }
      manifest := cache[id].manifest;
      outcome := Reused;
    }

    // same_config: the stamp decides, or without one the files an older version left behind.
    method Reusable(config: Config) returns (same: bool)
      ensures !stamp.Missing? ==> (same <==> StampAllows(stamp, requested, config))
      ensures stamp.Missing? && same ==> !image.Missing?
    {
      if !stamp.Missing? {
        same := stamp == Whole(config);
      } else {
        var alike := *;
        same := !output.Missing? && !image.Missing? && legacy == Whole(config) &&
                (if output.Torn? && image.Torn? then alike else output == image);
      }
      if !same && !stamp.Missing? {
        if stamp.Whole? {
          AdditiveIsCompatible(Values(stamp.value), Values(config));
        }
        if stamp.Whole? && stamp.value in requested {
          same := Additive(Values(stamp.value), Values(config));
        }
      }
    }

    // A command that does not come to its end: it reports an error, or the run is stopped.
    method BreakOff() returns (outcome: Outcome)
      modifies this`trouble
      ensures outcome == Failed || outcome == Stopped
      ensures trouble > old(trouble)
    {
      trouble := trouble + 1;
      outcome := Stopped;
      if * {
        outcome := Failed;
      }
    }

    // The run is stopped.
    method Stop() returns (outcome: Outcome)
      modifies this`trouble
      ensures outcome == Stopped && trouble > old(trouble)
    {
      trouble := trouble + 1;
      outcome := Stopped;
    }

    // clean_buildroot_outputs. Built stands for having come to its end.
    method Clean() returns (outcome: Outcome)
      modifies this`tree, this`image, this`trouble
      ensures if outcome == Built then trouble == old(trouble) else trouble > old(trouble)
      ensures outcome == Built ==> tree == EMPTY && image.Missing?
      ensures outcome != Reused
      ensures tree.packages <= old(tree).packages && (tree.base == None || tree.base == old(tree).base)
      ensures old(image).Missing? ==> image.Missing?
    {
      if * {
        var removed := *;
        tree := tree.(packages := tree.packages - removed);
        if * {
          tree := tree.(base := None);
        }
        if * {
          image := Missing;
        }
        outcome := BreakOff();
        return;
      }
      tree, image := EMPTY, Missing;
      outcome := Built;
    }

    // Writes the stamp and makes make_initramfs_buildroot.
    method StampAndBuild(config: Config) returns (outcome: Outcome)
      modifies this`stamp, this`tree, this`image, this`output, this`legacy, this`trouble
      ensures if outcome == Built then trouble == old(trouble) else trouble > old(trouble)
      ensures outcome != Reused
      ensures outcome == Built ==> tree == BuiltIn(old(tree), config) && output == Whole(ImageOf(tree)) && stamp == Whole(config)
      ensures (stamp == old(stamp) && tree == old(tree) && image == old(image))
              || stamp.Torn?
              || (stamp == Whole(config) && Underway(old(tree), tree, config))
    {
      if * {
        if * {
          stamp := Torn;
        }
        outcome := Stop();
        return;
      }
      stamp := Whole(config);
      if * {
        tree := MakePart(config);
        outcome := BreakOff();
        return;
      }
      tree := Make(config);
      if * {
        if * {
          image := Torn;
        }
        outcome := BreakOff();
        return;
      }
      image := ImageFile();
      if * {
        if * {
          output := Torn;
        }
        outcome := BreakOff();
        return;
      }
      output := image;
      if * {
        if * {
          legacy := Torn;
        }
        outcome := BreakOff();
        return;
      }
      legacy := Whole(config);
      outcome := Built;
    }

    // What Buildroot does to its output: the whole build, or some of it.
    method Make(config: Config) returns (built: Tree)
      ensures built == BuiltIn(tree, config)
    {
      var values := Values(config);
      var packages := set k | k in values && "BR2_PACKAGE_" <= k && values[k] == "y" && k !in INTEGRATION;
      var rest := map k | k in values && k !in INTEGRATION && k !in packages :: values[k];
      assert packages == Selected(config) && rest == Base(config);
      built := Tree(tree.packages + packages, if tree.base.Some? then tree.base else Some(rest));
    }

    method MakePart(config: Config) returns (part: Tree)
      ensures Underway(tree, part, config)
    {
      var built := Make(config);
      var missing := *;
      part := built.(packages := tree.packages + (built.packages - missing));
      if * {
        part := part.(base := tree.base);
      }
    }

    method ImageFile() returns (file: File<Image>)
      requires tree.base.Some?
      ensures file == Whole(ImageOf(tree))
    {
      file := Whole(Image(tree.packages, tree.base.value));
    }

    // Checks the BusyBox configuration of the build and copies the result into the cache.
    method Publish(id: Identity, required: seq<string>) returns (outcome: Outcome)
      requires output.Whole?
      modifies this`cache, this`requested, this`manifest, this`trouble
      ensures trouble == old(trouble) ==> outcome == if id in old(cache) then Failed else Built
      ensures trouble >= old(trouble) && (trouble > old(trouble) ==> outcome != Built)
      ensures outcome != Reused && output == old(output)
      ensures outcome == Built && required != [] ==> Lasting(cache, id)
      ensures outcome == Built ==> Featured(manifest, required)
      ensures SameBut(old(cache), cache, id)
      ensures outcome == Built ==> manifest.Whole? && manifest.value.identity == id && manifest.value.image == output.value
      ensures outcome == Built ==> id !in old(cache) && id in cache && cache[id].manifest == manifest && Intact(cache[id], id)
      ensures id in old(cache) ==> cache == old(cache) && outcome != Built
      ensures id in cache && cache[id].manifest.Whole? && id !in old(cache) ==>
                cache[id].manifest.value.identity == id && cache[id].manifest.value.image == output.value
    {
      var configs: nat := *;
      var busybox: seq<string> := *;
      if configs != 1 || exists line | line in required :: line !in busybox {
        trouble := trouble + 1;
        return Failed;
      }
      var record := Manifest(id, output.value, Some(busybox), required);
      var torn: Config := *;
      if * {
        requested := requested + {torn};
        outcome := Stop();
        return;
      }
      if id in cache {
        return Failed;
      }
      if * {
        var m := WrittenSoFar(record);
        var i := WrittenSoFar(output.value);
        var b := WrittenSoFar(busybox);
        cache := cache[id := Entry(m, i, b)];
        requested := requested + {torn};
        outcome := Stop();
        return;
      }
      cache := cache[id := Entry(Whole(record), output, Whole(busybox))];
      requested := requested + {id.config};
      if * {
        if * {
          manifest := Torn;
        }
        outcome := Stop();
        return;
      }
      manifest := Whole(record);
      outcome := Built;
    }
  }

  // ---- Whole histories ----------------------------------------------------------------------------

  datatype Event =
    | Run(config: Config, sources: string, required: seq<string>)
    | NewClone
    | Foreign(config: Config)
    | Decay(id: Identity, image: File<Image>, busybox: File<seq<string>>)

  // What an event left in the output, and what a run did to get there.
  datatype Report = Report(outcome: Outcome, output: File<Image>, manifest: File<Manifest>, kept: bool, found: Tree)

  // A run that ends normally has delivered the requested image, however earlier runs ended,
  // and a tree kept for it held no package the configuration does not select and was built
  // with no other settings.
  ghost predicate Kept(event: Event, report: Report) {
    event.Run? ==>
      && (Finished(report.outcome) ==>
            && report.output == Whole(ImageFor(event.config))
            && report.manifest.Whole? && report.manifest.value.identity == Identity(event.config, event.sources)
            && report.manifest.value.image == report.output.value)
      && (report.kept ==> Fits(report.found, event.config))
  }

  // No file of the entry goes bad.
  ghost predicate Spared(events: seq<Event>, id: Identity) {
    forall i :: 0 <= i < |events| && events[i].Decay? ==> events[i].id != id
  }

  method History(c: Checkout, events: seq<Event>) returns (log: seq<Report>)
    requires c.Valid()
    modifies c
    ensures c.Valid() && |log| == |events|
    ensures forall i :: 0 <= i < |events| ==> Kept(events[i], log[i])
    ensures forall id :: Lasting(old(c.cache), id) && Spared(events, id) ==>
              Lasting(c.cache, id) && c.cache[id] == old(c.cache)[id]
  {
    log := [];
    while |log| < |events|
      invariant |log| <= |events| && c.Valid()
      invariant forall i :: 0 <= i < |log| ==> Kept(events[i], log[i])
      invariant forall id :: Lasting(old(c.cache), id) && Spared(events, id) ==>
                  id in c.cache && c.cache[id] == old(c.cache)[id]
    {
      var found := c.tree;
      ghost var before := c.cache;
      match events[|log|] {
        case Run(config, sources, required) =>
          var outcome, kept := c.Ensure(config, sources, required);
          log := log + [Report(outcome, c.output, c.manifest, kept, found)];
        case NewClone =>
          c.Reclone();
          log := log + [Report(Stopped, c.output, c.manifest, false, found)];
        case Foreign(config) =>
          c.OtherWidth(config);
          log := log + [Report(Stopped, c.output, c.manifest, false, found)];
        case Decay(id, image, busybox) =>
          c.Damage(id, image, busybox);
          log := log + [Report(Stopped, c.output, c.manifest, false, found)];
      }
    }
  }

  // Nothing is built twice: once a run for an identity has ended normally, whatever runs come
  // in between, the next one that nothing disturbs takes the same image from the cache.
  method BuiltOnce(c: Checkout, config: Config, sources: string, required: seq<string>, between: seq<Event>)
    returns (first: Outcome, second: Outcome, image: File<Image>, ghost calm: bool)
    requires c.Valid() && required != [] && Spared(between, Identity(config, sources))
    modifies c
    ensures c.Valid()
    ensures Finished(first) && calm ==> second == Reused && c.output == image == Whole(ImageFor(config))
  {
    hide Intact, Verified, ImageFor;
    var id := Identity(config, sources);
    var kept;
    first, kept := c.Ensure(config, sources, required);
    image := c.output;
    var log := History(c, between);
    ghost var before := c.trouble;
    second, kept := c.Ensure(config, sources, required);
    calm := c.trouble == before;
  }

  // The promise does not survive builds made by hand in between. A tree finished for config
  // and then built by hand for other is kept by the next run for config, and what that run
  // builds in it is right exactly when the hand build selected nothing else.
  method BuiltByHandBetween(c: Checkout, config: Config, other: Config, sources: string, required: seq<string>)
    returns (outcome: Outcome)
    requires c.stamp == Whole(config) && c.tree == BuiltIn(EMPTY, config)
    modifies c
    ensures outcome == Built ==>
              (c.output == Whole(ImageFor(config)) <==> Selected(other) <= Selected(config))
    ensures c.trouble == old(c.trouble) && Identity(config, sources) !in old(c.cache) ==> outcome == Built
  {
    c.MakeByHand(other);
    var kept;
    outcome, kept := c.Ensure(config, sources, required);
    ghost var packages := Selected(config) + Selected(other) + Selected(config);
    assert outcome == Built ==> c.tree == Tree(packages, Some(Base(config)));
    assert Selected(other) <= Selected(config) ==> packages == Selected(config);
    assert Selected(other) <= packages;
  }

  // For one, a package built by hand on top of an empty configuration is one it does not select.
  lemma HandBuiltPackageStays(key: string)
    requires "BR2_PACKAGE_" <= key && Without(key, '=') && key !in INTEGRATION
    ensures Selected([key + "=" + "y"]) == {key} && !({key} <= Selected([]))
  {
    var line := key + "=" + "y";
    var none: Config := [];
    FindAt(key, '=', "y");
    assert [line][..0] == none && Values(none) == map[];
    assert line[..|key|] == key && line[|key| + 1..] == "y";
    assert Values([line]) == map[key := "y"];
  }

  // In such a run nothing goes wrong, and yet it ends with the wrong image.
  method WrongAfterHandBuild(c: Checkout, key: string, sources: string, required: seq<string>)
    returns (outcome: Outcome)
    requires "BR2_PACKAGE_" <= key && Without(key, '=') && key !in INTEGRATION
    requires c.stamp == Whole([]) && c.tree == BuiltIn(EMPTY, []) && Identity([], sources) !in c.cache
    modifies c
    ensures c.trouble == old(c.trouble) ==> outcome == Built && c.output != Whole(ImageFor([]))
  {
    HandBuiltPackageStays(key);
    var none: Config, one: Config := [], [key + "=" + "y"];
    outcome := BuiltByHandBetween(c, none, one, sources, required);
  }

  // A file of a copy that was stopped: not begun, begun, or complete.
  method WrittenSoFar<T>(content: T) returns (file: File<T>)
    ensures file.Whole? ==> file.value == content
  {
    file := Whole(content);
    if {
      case true => file := Missing;
      case true => file := Torn;
      case true =>
    }
  }

  // A manifest in the cache tells the truth about a build of its identity.
  ghost predicate Sound(id: Identity, m: Manifest) {
    m.identity == id && m.image == ImageFor(id.config)
  }
}
