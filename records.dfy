/**
 The values the activation directory indexes. The directory only ever looks at
 an activation's identity and its grain, and at a system target's identity and
 its type-classifying grain identity; everything else about them is opaque here.
 */
module Records {

  /** Identity of one activation or system target hosted on this node. */
  type ActivationId(==, !new)

  /** Identity of a logical actor (a grain); it may have several activations. */
  type GrainId(==, !new)

  /** An application grain's activation, as far as the directory sees it. */
  datatype Activation = Activation(id: ActivationId, grain: GrainId)

  /** An internal runtime actor; `grainId` classifies its type. */
  datatype SystemTarget = SystemTarget(id: ActivationId, grainId: GrainId)

  /** A lookup result: `None` plays the part of the source's `null`. */
  datatype Option<+T> = None | Some(value: T)
}
