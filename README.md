# 3D human body explorer: region classifier, highlight and info panel

This project models the logic of an interactive 3D human-body viewer in Dafny.
The viewer shows a mesh of a human figure. A click on the figure names a body
region and shows a card about it. The model covers three pieces:

- **The height-band classifier** (`getBodyPart` in components/ModelViewer.js).
  It maps the height `y` of a pick point to one of seven regions: head, neck,
  shoulders, chest, abdomen, legs, feet. Each band starts strictly above a
  floor: 0.8, 0.6, 0.2, 0, -0.3 and -0.6. Feet takes everything at or below
  -0.6. Module `ModelViewer` models the classifier as `GetBodyPart`. It also
  gives an independent interval definition of the bands (`InBand`) and proves
  that the two agree.
- **The material highlight** of the `Model` component. Each mesh has a private
  material and a colour captured at mount. Each selection change runs one
  effect. The effect resets every captured mesh to its original colour with a
  black emissive. It then paints the selected mesh `0x00aaff` with emissive
  `0x0066ff`. Last, it gives the hovered mesh emissive `0x333333`, unless the
  hovered mesh is the selected one. Class `ModelViewer.HumanModel` holds the
  meshes in an array and the `hovered`/`selected` state in fields. Its methods
  are proved against the specification function `Highlighted`, and the
  properties are proved as lemmas about that function: idempotence,
  reversibility, what each mesh ends as, and that original colours are kept.
- **The info panel** (components/InfoPanel.js). Module `InfoPanel` holds the
  fixed registry `bodyPartsInfo`, the lookup of the selected key and the two
  views: the welcome card, or the card of one region. It also proves closure
  with the classifier: every label the classifier emits has a registry entry,
  and every entry is reachable.

Meshes are records `Mesh(color, emissive, originalColor)` with colours as
plain integers. A mesh is identified by its index in the scene's mesh array,
so the source's `hovered !== selected` is a comparison of indices.
`scene.traverse` becomes `Traverse`, an in-order walk over that array.

The classifier in components/ModelViewer.js has exactly the seven bands
above. The highlight resets the emissive colour to black, not to a captured
emissive. Regions are found by height alone: there is no matching on mesh
names and there are no hotspot markers.

## Model

| member | source | states |
|---|---|---|
| ModelViewer.GetBodyPart | components/ModelViewer.js:59-69 | the region returned is one whose band (strictly above its floor, at or below the next floor up) contains the pick point's height |
| ModelViewer.ClassifiedIffInBand | components/ModelViewer.js:62-68 | the classifier returns region p exactly when the height lies in p's band: the result exists and is unique for every height |
| ModelViewer.BandsDisjoint | components/ModelViewer.js:62-68 | no height lies in two bands |
| ModelViewer.FloorsIncrease | components/ModelViewer.js:62-67 | the band floors rise with the region's rank from feet to head |
| ModelViewer.BoundaryFallsBelow | components/ModelViewer.js:62-67 | a height equal to a band's floor is classified one band lower (y = 0.8 gives neck, y = 0 gives abdomen) |
| ModelViewer.Monotone | components/ModelViewer.js:62-68 | a higher pick point never gives a lower region in the order feet < legs < abdomen < chest < shoulders < neck < head |
| ModelViewer.DependsOnlyOnHeight | components/ModelViewer.js:60 | two pick points with the same height give the same region, whatever their x and z |
| ModelViewer.EveryPartReachable | components/ModelViewer.js:62-68 | each of the seven regions is returned for some pick point |
| ModelViewer.KeyInjective | components/ModelViewer.js:62-68 | distinct regions are reported under distinct labels |
| ModelViewer.Traverse | components/ModelViewer.js:18-24 | visiting the meshes applies the visitor to each mesh, in place, and keeps their number and order |
| ModelViewer.Highlighted | components/ModelViewer.js:37-56 | one run of the selection effect keeps the number of meshes |
| ModelViewer.HighlightOutcome | components/ModelViewer.js:39-55 | after the effect, the selected mesh is reset then painted; a hovered mesh other than the selected one is reset then glows; every other mesh is only reset |
| ModelViewer.HighlightRestoresOthers | components/ModelViewer.js:39-44 | a mesh neither selected nor hovered ends with its original colour and a black emissive; one without a captured colour is left unchanged |
| ModelViewer.HighlightSelected | components/ModelViewer.js:47-50 | the selected mesh ends with colour 0x00aaff and emissive 0x0066ff, also when it is the hovered mesh |
| ModelViewer.HighlightHovered | components/ModelViewer.js:53-55 | a hovered mesh other than the selected one keeps its original colour and ends with emissive 0x333333 |
| ModelViewer.HighlightKeepsOriginals | components/ModelViewer.js:37-56 | the effect never changes any captured original colour |
| ModelViewer.HighlightIdempotent | components/ModelViewer.js:37-56 | running the effect twice with the same state gives the same meshes as running it once |
| ModelViewer.HighlightForgetsHistory | components/ModelViewer.js:37-56 | once every mesh is captured, the meshes after a run depend only on that run's state, not on earlier runs |
| ModelViewer.ClearRestoresAll | components/ModelViewer.js:39-44 | with nothing selected or hovered, every captured mesh shows exactly its original colour with a black emissive |
| ModelViewer.ApplyEach | components/ModelViewer.js:37-56 | running the effect once per state in a list keeps the number of meshes |
| ModelViewer.ReversibleAfterClear | components/ModelViewer.js:37-56 | after any series of selection states that ends with nothing selected and nothing hovered, every captured mesh is back to its original colour with a black emissive |
| ModelViewer.CaptureRecordsColours | components/ModelViewer.js:18-24 | mounting gives every mesh an original colour equal to its current colour and changes nothing else |
| ModelViewer.CleanUpRestoresColours | components/ModelViewer.js:27-33 | the clean-up sets every captured mesh's colour back to its original and leaves its emissive unchanged |
| ModelViewer.RecaptureAfterCleanUp | components/ModelViewer.js:16-33 | clean-up followed by a fresh mount captures the same original colours as before |
| ModelViewer.CaptureWhileSelectedLosesOriginal | components/ModelViewer.js:18-24 | for any mesh whose original colour is not 0x00aaff, capturing while it is selected (whatever is hovered) records 0x00aaff as its original and loses the true one, so the clean-up must come before a re-capture |
| ModelViewer.HumanModel.constructor | components/ModelViewer.js:12-14 | a loaded scene starts with nothing hovered and nothing selected |
| ModelViewer.HumanModel.CaptureMaterials | components/ModelViewer.js:16-24 | the mount loop leaves the meshes as the capture walk specifies, so every mesh has a captured colour |
| ModelViewer.HumanModel.CleanUp | components/ModelViewer.js:27-33 | the clean-up loop leaves the meshes as the clean-up walk specifies |
| ModelViewer.HumanModel.ApplyHighlight | components/ModelViewer.js:37-56 | the effect's reset loop and the two repaints leave the meshes as `Highlighted` specifies for the current state |
| ModelViewer.HumanModel.Click | components/ModelViewer.js:76-83 | a click selects the clicked mesh, keeps the hover, re-runs the effect, and reports the region whose band holds the click height |
| ModelViewer.HumanModel.PointerOver | components/ModelViewer.js:84-88 | entering a mesh makes it the hovered one, keeps the selection, and re-runs the effect |
| ModelViewer.HumanModel.PointerOut | components/ModelViewer.js:89-92 | leaving the model clears the hover, keeps the selection, and re-runs the effect |
| InfoPanel.ListItems | components/InfoPanel.js:103-105 | the functions list has one item per function, in stored order, keyed by its index |
| InfoPanel.Render | components/InfoPanel.js:42-105 | the welcome card is shown exactly when the selected part is null, empty or not a registry key; otherwise the card shows that entry's name, description and functions in order |
| InfoPanel.RegistryKeys | components/InfoPanel.js:3-39 | the registry has exactly the seven keys head, neck, shoulders, chest, abdomen, legs, feet |
| InfoPanel.EntriesWellFormed | components/InfoPanel.js:4-38 | each entry's name is its key with the first letter capitalised, its description is non-empty and its functions list is non-empty |
| InfoPanel.ClassifierLabelsAreRegistryKeys | components/InfoPanel.js:3-39 | every label the classifier emits is a registry key, and every registry key is emitted for some pick point |
| InfoPanel.ClassifiedPartShowsDetails | components/InfoPanel.js:42-44 | a classifier label never falls through to the welcome card; its card is headed by the capitalised label |

## Left out

- Rendering: the JSX markup, styling and layout of both components. Only the choice between the two panel views and their contents are modelled.
- three.js and react-three-fiber: asset loading with `useGLTF`, the `Canvas`, lights, `OrbitControls` and the progress `Loader`. `scene.traverse` is modelled as a walk over the scene's meshes only; non-mesh nodes are skipped by the source and are not in the model.
- Material cloning (`material.clone()`): every mesh record owns its material fields, which is what the clone achieves. Aliasing between colour objects (`color.clone()`, `new THREE.Color`) is not modelled; colours are values.
- The display transform (scale 0.3, offset -1): the classifier takes the pick point as given, as the source does.
- Floating point: heights are `real`. The thresholds are only compared, never computed.
- The cursor style writes and `stopPropagation` calls in the pointer handlers.
- React scheduling: the effect runs right after each handler's state change. React skips the effect when the state did not change; `HighlightIdempotent` shows that skipping it makes no difference. Strict Mode double mounting is covered by `RecaptureAfterCleanUp`.
- The `onSelect` callback: `Click` returns the region instead of calling it. The page shell that stores the selection and the panel's close button are not part of this model.
- InfoPanel.Render: treats only the registry's own keys as present. The source's bracket lookup would also find properties inherited from JavaScript's object prototype, such as `"constructor"`. The classifier never emits such a key (`ClassifierLabelsAreRegistryKeys`).
