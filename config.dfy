/** `ModelConfig` of backend/app/config/models.py: choosing the SAM2 config and
    checkpoint for a model variant, and the compute device. The environment
    variables MODEL and DEVICE are parameters (None when unset). */
module ModelConfig {
  import opened Wrappers
  import opened Text

  /** A variant's (config, checkpoint) pair. */
  datatype ModelPaths = ModelPaths(config: string, checkpoint: string)

  const ModelMappings: map<string, ModelPaths> := map[
    "tiny" := ModelPaths("configs/sam2.1/sam2.1_hiera_t.yaml", "checkpoints/sam2.1_hiera_tiny.pt"),
    "small" := ModelPaths("configs/sam2.1/sam2.1_hiera_s.yaml", "checkpoints/sam2.1_hiera_small.pt"),
    "base_plus" := ModelPaths("configs/sam2.1/sam2.1_hiera_b+.yaml", "checkpoints/sam2.1_hiera_base_plus.pt"),
    "large" := ModelPaths("configs/sam2.1/sam2.1_hiera_l.yaml", "checkpoints/sam2.1_hiera_large.pt")
  ]

  /** The variant names in the mapping's insertion order. */
  const Variants: seq<string> := ["tiny", "small", "base_plus", "large"]

  /** `", ".join(MODEL_MAPPINGS.keys())`. */
  const Available: string := "tiny, small, base_plus, large"

  const DefaultVariant: string := "tiny"

  function InvalidVariant(v: string): Error {
    ValueError("Invalid model variant '" + v + "'. Available: " + Available)
  }

  /** `get_model_paths`: an unset variant comes from MODEL (default "tiny"); the
      variant is looked up lower-cased; an unknown one raises ValueError naming it
      lower-cased. */
  function GetModelPaths(variant: Option<string>, envModel: Option<string>): (r: Result<ModelPaths, Error>)
    ensures var v := Lower(if variant.Some? then variant.value else envModel.GetOr(DefaultVariant));
            && (r.Ok? <==> v in Variants)
            && (r.Ok? ==> r.value == ModelMappings[v])
            && (r.Err? ==> r.error == InvalidVariant(v))
  {
    var v := if variant.None? then envModel.GetOr(DefaultVariant) else variant.value;
    var key := Lower(v);
    if key !in ModelMappings then Err(InvalidVariant(key))
    else Ok(ModelMappings[key])
  }

  /** The mapping has exactly the listed variants. */
  lemma VariantsAreKeys()
    ensures forall v :: v in ModelMappings <==> v in Variants
  {
    assert ModelMappings.Keys == {"tiny", "small", "base_plus", "large"};
  }

  /** Each variant yields exactly its own (config, checkpoint) pair. */
  lemma VariantPaths(envModel: Option<string>)
    ensures GetModelPaths(Some("tiny"), envModel)
         == Ok(ModelPaths("configs/sam2.1/sam2.1_hiera_t.yaml", "checkpoints/sam2.1_hiera_tiny.pt"))
    ensures GetModelPaths(Some("small"), envModel)
         == Ok(ModelPaths("configs/sam2.1/sam2.1_hiera_s.yaml", "checkpoints/sam2.1_hiera_small.pt"))
    ensures GetModelPaths(Some("base_plus"), envModel)
         == Ok(ModelPaths("configs/sam2.1/sam2.1_hiera_b+.yaml", "checkpoints/sam2.1_hiera_base_plus.pt"))
    ensures GetModelPaths(Some("large"), envModel)
         == Ok(ModelPaths("configs/sam2.1/sam2.1_hiera_l.yaml", "checkpoints/sam2.1_hiera_large.pt"))
  {
    assert Lower("tiny") == "tiny" && Lower("small") == "small";
    assert Lower("base_plus") == "base_plus" && Lower("large") == "large";
  }

  /** Any other variant is refused with a ValueError naming it lower-cased. */
  lemma UnknownVariantRefused(v: string, envModel: Option<string>)
    requires Lower(v) !in Variants
    ensures GetModelPaths(Some(v), envModel) == Err(InvalidVariant(Lower(v)))
  {
  }

  /** The lookup ignores case. */
  lemma GetModelPathsIgnoresCase(v: string, envModel: Option<string>)
    ensures GetModelPaths(Some(v), envModel) == GetModelPaths(Some(Lower(v)), envModel)
  {
    LowerIdempotent(v);
  }

  /** An unset variant behaves as the MODEL variable's value, or "tiny" when that is unset too. */
  lemma GetModelPathsDefault(envModel: Option<string>)
    ensures GetModelPaths(None, envModel) == GetModelPaths(Some(envModel.GetOr(DefaultVariant)), None)
    ensures GetModelPaths(None, None) == Ok(ModelMappings["tiny"])
  {
    assert Lower(DefaultVariant) == DefaultVariant;
  }

  /** Distinct variants give distinct checkpoints and distinct configs. */
  lemma VariantsDistinct(a: string, b: string, envModel: Option<string>)
    requires GetModelPaths(Some(a), envModel).Ok? && GetModelPaths(Some(b), envModel).Ok?
    requires Lower(a) != Lower(b)
    ensures GetModelPaths(Some(a), envModel).value.checkpoint != GetModelPaths(Some(b), envModel).value.checkpoint
    ensures GetModelPaths(Some(a), envModel).value.config != GetModelPaths(Some(b), envModel).value.config
  {
    VariantsAreKeys();
  }

  const Devices: seq<string> := ["cpu", "cuda", "mps"]

  /** `get_device`: DEVICE lower-cased (default "cpu"); an unknown device falls
      back to "cpu". */
  function GetDevice(envDevice: Option<string>): (r: string)
    ensures r in Devices
    ensures var d := Lower(envDevice.GetOr("cpu"));
            && (r == d <==> d in Devices)
            && (d !in Devices ==> r == "cpu")
  {
    var device := Lower(envDevice.GetOr("cpu"));
    if device !in Devices then "cpu" else device
  }

  /** Feeding the chosen device back in as DEVICE chooses it again. */
  lemma GetDeviceIdempotent(envDevice: Option<string>)
    ensures GetDevice(Some(GetDevice(envDevice))) == GetDevice(envDevice)
  {
    var r := GetDevice(envDevice);
    assert Lower("cpu") == "cpu" && Lower("cuda") == "cuda" && Lower("mps") == "mps";
    assert r == "cpu" || r == "cuda" || r == "mps";
  }
}
