/** The editor's data model: style records, component nodes and screens
    (types/index.ts). */
module Types {

  datatype Option<+T> = None | Some(value: T)

  datatype Result<+R, +E> = Ok(value: R) | Err(error: E)

  /** The fields of `StyleProps`, in declaration order. */
  datatype Field =
    | Color | BackgroundColor | BorderColor | TextColor
    | Padding | PaddingTop | PaddingRight | PaddingBottom | PaddingLeft
    | Margin | MarginTop | MarginRight | MarginBottom | MarginLeft
    | FontSize | FontWeight | FontFamily | FontStyle | LineHeight | LetterSpacing | TextAlign
    | Display | FlexDirection | JustifyContent | AlignItems | Gap
    | Width | Height | MinWidth | MaxWidth | MinHeight | MaxHeight
    | BorderStyle | BorderWidth | BorderRadius
    | Opacity | BoxShadow | Filter

  /** A sparse style record (`StyleProps`, and `Partial<StyleProps>` for an
      update): each present field maps to its string value. */
  type Styles = map<Field, string>

  /** JavaScript truthiness of an optional string field: present and non-empty. */
  predicate IsSet(s: Styles, f: Field) {
    f in s && s[f] != ""
  }

  /** JavaScript truthiness of an optional string: present and non-empty. */
  predicate Truthy(o: Option<string>) {
    o.Some? && o.value != ""
  }

  datatype ComponentType = Container | Button | Text | Card | Input | Image | Heading

  /** The optional `children` array: absent, or present (possibly empty). */
  datatype Children = Absent | Present(nodes: seq<Node>)

  /** `BloomComponent`. */
  datatype Node = Node(
    id: string,
    kind: ComponentType,
    labelText: Option<string>,   // `label`, a reserved word here
    content: Option<string>,
    children: Children,
    styles: Styles)

  datatype Metadata = Metadata(
    createdAt: Option<string>,
    updatedAt: Option<string>,
    description: Option<string>)

  /** `BloomScreen`. */
  datatype Screen = Screen(
    id: string,
    name: string,
    components: seq<Node>,
    metadata: Option<Metadata>)
}
