/** The per-kind default props tables and the helper that mints a flat node
    from them. */
module ComponentDefaults {

  import opened Types

  const TextDefaults: Props := map[
    "content" := Str("文字"),
    "fontSize" := Num(16.0),
    "color" := Str("#000000"),
    "fontWeight" := Str("normal"),
    "lineHeight" := Num(1.5)
  ]

  const ImageDefaults: Props := map[
    "src" := Str(""),
    "alt" := Str("Image"),
    "width" := Num(200.0),
    "height" := Num(150.0),
    "objectFit" := Str("cover"),
    "objectPosition" := Str("center"),
    "borderRadius" := Num(0.0)
  ]

  const ContainerDefaults: Props := map[
    "width" := Str("auto"),
    "height" := Str("auto"),
    "backgroundColor" := Str("#ffffff"),
    "padding" := Num(16.0),
    "borderWidth" := Num(0.0),
    "borderStyle" := Str("none"),
    "borderColor" := Str("#e0e0e0"),
    "borderRadius" := Num(0.0),
    "flexDirection" := Str("column"),
    "justifyContent" := Str("flex-start"),
    "alignItems" := Str("stretch"),
    "flexWrap" := Str("nowrap"),
    "gap" := Num(0.0)
  ]

  const LinkDefaults: Props := map[
    "href" := Str("https://example.com"),
    "text" := Str("Link"),
    "target" := Str("_self"),
    "rel" := Str(""),
    "color" := Str("#0066cc"),
    "underline" := Str("underline")
  ]

  const VideoDefaults: Props := map[
    "src" := Str(""),
    "poster" := Str(""),
    "width" := Num(240.0),
    "height" := Num(180.0),
    "controls" := Bool(true),
    "autoplay" := Bool(false),
    "loop" := Bool(false),
    "muted" := Bool(false)
  ]

  /** COMPONENT_DEFAULTS: every kind has a table, and each table carries the
      required fields of that kind's props record. */
  function DefaultProps(t: ComponentType): (p: Props)
    ensures PropsFit(t, p)
  {
    match t
    case Text => TablesFit(); TextDefaults
    case Image => TablesFit(); ImageDefaults
    case Container => TablesFit(); ContainerDefaults
    case Video => TablesFit(); VideoDefaults
    case Link => TablesFit(); LinkDefaults
  }

  lemma TablesFit()
    ensures PropsFit(Text, TextDefaults) && PropsFit(Image, ImageDefaults)
    ensures PropsFit(Container, ContainerDefaults) && PropsFit(Video, VideoDefaults)
    ensures PropsFit(Link, LinkDefaults)
  {
    TextFits();
    ImageFits();
    ContainerFits();
    VideoFits();
    LinkFits();
  }

  lemma TextFits() ensures PropsFit(Text, TextDefaults) {}
  lemma ImageFits() ensures PropsFit(Image, ImageDefaults) {}
  lemma ContainerFits() ensures PropsFit(Container, ContainerDefaults) {}
  lemma VideoFits() ensures PropsFit(Video, VideoDefaults) {}
  lemma LinkFits() ensures PropsFit(Link, LinkDefaults) {}

  /** Two values of the same kind (string, number or boolean). */
  predicate SameKind(a: Value, b: Value)
  {
    (a.Str? && b.Str?) || (a.Num? && b.Num?) || (a.Bool? && b.Bool?)
  }

  /** createFlatComponent with the fresh id passed in: the defaults of the kind
      overlaid by `customProps` (`{...defaults, ...customProps}`). */
  function CreateFlatComponent(t: ComponentType, parentId: Option<Id>, customProps: Props, id: Id): (n: FlatNode)
    ensures n.id == id && n.ctype == t && n.parentId == parentId
    ensures forall k :: k in n.props <==> k in DefaultProps(t) || k in customProps
    ensures forall k :: k in customProps ==> n.props[k] == customProps[k]
    ensures forall k :: k in DefaultProps(t) && k !in customProps ==> n.props[k] == DefaultProps(t)[k]
  {
    FlatNode(id, t, parentId, DefaultProps(t) + customProps)
  }

  /** A new node's props fit its kind as long as `customProps` does not change the
      kind of value of a default field; with no custom props they always fit. */
  lemma CreatedPropsFit(t: ComponentType, parentId: Option<Id>, customProps: Props, id: Id)
    requires forall k :: k in customProps && k in DefaultProps(t) ==> SameKind(customProps[k], DefaultProps(t)[k])
    ensures PropsFit(t, CreateFlatComponent(t, parentId, customProps, id).props)
  {
    var d := DefaultProps(t);
    var p := CreateFlatComponent(t, parentId, customProps, id).props;
    forall k | k in d ensures k in p && SameKind(p[k], d[k]) {
      if k in customProps {
        assert SameKind(customProps[k], d[k]);
      }
    }
    FitCarries(t, d, p);
  }

  /** A record that has every field of a fitting record, with values of the
      same kind, fits too. */
  lemma FitCarries(t: ComponentType, d: Props, p: Props)
    requires PropsFit(t, d)
    requires forall k | k in d :: k in p && SameKind(p[k], d[k])
    ensures PropsFit(t, p)
  {
  }
}
