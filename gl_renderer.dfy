/** `MyGLRenderer`: the single-slot mailbox between the camera thread, which
    hands over one RGBA frame at a time, and the GL thread, which uploads the
    pending frame at the next draw; and the textured quad it draws, whose
    vertex shader turns every texture coordinate before sampling.

    The lock around the slot is treated as a sequential critical section, and
    the GL texture is ghost state: what `glTexImage2D` was last given. */
module GLRenderer {
  import opened Java

  datatype Option<T> = None | Some(value: T)

  /** What the GL texture holds: blank until the first upload, then the bytes
      and dimensions of the last `glTexImage2D` call. */
  datatype Texture = Blank | Uploaded(pixels: seq<byte>, width: Int32, height: Int32)

  /** The renderer's state as a value: the slot (`pendingPixelBuffer`,
      `pendingWidth`, `pendingHeight`), the texture, and how many uploads the
      draws have made. */
  datatype Mailbox = Mailbox(pending: Option<seq<byte>>, width: Int32, height: Int32,
                             texture: Texture, uploads: nat)

  /** The renderer as constructed: nothing pending, dimensions 0, blank texture. */
  function Initial(): Mailbox
  {
    Mailbox(None, 0, 0, Blank, 0)
  }

  /** The guard of the drain in `onDrawFrame`. */
  predicate Ready(m: Mailbox)
  {
    m.pending.Some? && m.width > 0 && m.height > 0
  }

  /** `updateTexture`: the slot is overwritten with a copy of the frame. */
  function Updated(m: Mailbox, pixels: seq<byte>, width: Int32, height: Int32): Mailbox
  {
    m.(pending := Some(pixels), width := width, height := height)
  }

  /** The drain in `onDrawFrame`: a ready slot is uploaded and emptied (its
      dimensions are left as they were); otherwise nothing changes. */
  function Drawn(m: Mailbox): Mailbox
  {
    if Ready(m) then
      m.(pending := None, texture := Uploaded(m.pending.value, m.width, m.height),
         uploads := m.uploads + 1)
    else m
  }

  /** Two updates with no draw in between leave only the second one pending. */
  lemma LastWriteWins(m: Mailbox, first: seq<byte>, w1: Int32, h1: Int32,
                      second: seq<byte>, w2: Int32, h2: Int32)
    ensures Updated(Updated(m, first, w1, h1), second, w2, h2) == Updated(m, second, w2, h2)
  {
  }

  /** A draw with a ready slot uploads exactly the pending bytes and
      dimensions, once, and empties the slot. */
  lemma DrawUploadsPending(m: Mailbox)
    requires Ready(m)
    ensures Drawn(m).texture == Uploaded(m.pending.value, m.width, m.height)
    ensures Drawn(m).pending == None && Drawn(m).uploads == m.uploads + 1
    ensures Drawn(m).width == m.width && Drawn(m).height == m.height
  {
  }

  /** A draw with nothing ready changes nothing: in particular a pending frame
      with a non-positive dimension stays pending. */
  lemma NotReadyStaysPending(m: Mailbox)
    requires !Ready(m)
    ensures Drawn(m) == m
  {
  }

  /** A second draw with no update in between uploads nothing. */
  lemma SecondDrawUploadsNothing(m: Mailbox)
    ensures Drawn(Drawn(m)) == Drawn(m)
    ensures Drawn(m).uploads <= m.uploads + 1
  {
  }

  /** An update followed by a draw shows that frame exactly when both of its
      dimensions are positive; otherwise the frame stays in the slot. */
  lemma UpdateThenDraw(m: Mailbox, pixels: seq<byte>, width: Int32, height: Int32)
    ensures width > 0 && height > 0 ==>
      Drawn(Updated(m, pixels, width, height)).texture == Uploaded(pixels, width, height)
    ensures !(width > 0 && height > 0) ==>
      Drawn(Updated(m, pixels, width, height)) == Updated(m, pixels, width, height)
  {
  }

  // ---------------------------------------------------------------------------
  // Any interleaving of hand-overs and draws

  /** A call made on the renderer. */
  datatype Event = Update(pixels: seq<byte>, width: Int32, height: Int32) | Draw

  function Step(m: Mailbox, e: Event): Mailbox
  {
    match e
    case Update(pixels, width, height) => Updated(m, pixels, width, height)
    case Draw => Drawn(m)
  }

  /** The renderer after the events, in order, from construction. */
  function Run(events: seq<Event>): Mailbox
  {
    if events == [] then Initial()
    else Step(Run(events[..|events| - 1]), events[|events| - 1])
  }

  /** Every frame handed over, as the texture it would become. */
  function Offered(events: seq<Event>): (offered: set<Texture>)
  {
    if events == [] then {}
    else
      var last := events[|events| - 1];
      Offered(events[..|events| - 1]) +
        (if last.Update? then {Uploaded(last.pixels, last.width, last.height)} else {})
  }

  function UpdateCount(events: seq<Event>): nat
  {
    if events == [] then 0
    else UpdateCount(events[..|events| - 1]) + (if events[|events| - 1].Update? then 1 else 0)
  }

  function DrawCount(events: seq<Event>): nat
  {
    if events == [] then 0
    else DrawCount(events[..|events| - 1]) + (if events[|events| - 1].Draw? then 1 else 0)
  }

  /** Whatever the interleaving: the texture is blank or a frame that was
      handed over with positive dimensions; a pending frame is one that was
      handed over; no frame is uploaded twice (uploads plus the frame still
      pending never exceed the hand-overs), and each upload takes a draw. */
  lemma {:induction false} RunInvariant(events: seq<Event>)
    ensures var m := Run(events);
      && (m.texture == Blank || (m.texture in Offered(events) && m.texture.width > 0 && m.texture.height > 0))
      && (m.pending.Some? ==> Uploaded(m.pending.value, m.width, m.height) in Offered(events))
      && m.uploads + (if m.pending.Some? then 1 else 0) <= UpdateCount(events)
      && m.uploads <= DrawCount(events)
  {
    if events != [] {
      RunInvariant(events[..|events| - 1]);
    }
  }

  // ---------------------------------------------------------------------------
  // The renderer object

  class Renderer {
    var pendingPixelBuffer: array?<byte>
    var pendingWidth: Int32
    var pendingHeight: Int32
    /** The GL texture, changed only by the upload in `DrawFrame`. */
    ghost var texture: Texture
    ghost var uploads: nat

    /** The state as a `Mailbox`, with the pending buffer's current bytes. */
    ghost function State(): Mailbox
      reads this, pendingPixelBuffer
    {
      Mailbox(if pendingPixelBuffer == null then None else Some(pendingPixelBuffer[..]),
              pendingWidth, pendingHeight, texture, uploads)
    }

    constructor ()
      ensures State() == Initial()
    {
      pendingPixelBuffer := null;
      pendingWidth, pendingHeight := 0, 0;
      texture, uploads := Blank, 0;
    }

    /** `updateTexture`: a new buffer of the argument's capacity receives a
        copy of its bytes and replaces whatever was pending. */
    method UpdateTexture(rgba: array<byte>, width: Int32, height: Int32)
      modifies this
      ensures State() == Updated(old(State()), rgba[..], width, height)
      ensures fresh(pendingPixelBuffer)
    {
      var copy := new byte[rgba.Length];
      forall i | 0 <= i < rgba.Length {
        copy[i] := rgba[i];
      }
      assert copy[..] == rgba[..];
      pendingPixelBuffer := copy;
      pendingWidth := width;
      pendingHeight := height;
    }

    /** The slot part of `onDrawFrame`. */
    method DrawFrame()
      modifies this
      ensures State() == Drawn(old(State()))
    {
      if pendingPixelBuffer != null && pendingWidth > 0 && pendingHeight > 0 {
        texture := Uploaded(pendingPixelBuffer[..], pendingWidth, pendingHeight);
        uploads := uploads + 1;
        pendingPixelBuffer := null;
      }
    }
  }

  /** The caller may reuse its buffer right after the hand-over: the pending
      copy keeps the bytes it had at the call. */
  method CopyIsIndependent(renderer: Renderer, rgba: array<byte>, width: Int32, height: Int32,
                           later: seq<byte>)
    requires |later| == rgba.Length
    modifies renderer, rgba
    ensures renderer.pendingPixelBuffer != null
    ensures renderer.pendingPixelBuffer[..] == old(rgba[..])
    ensures rgba[..] == later
  {
    renderer.UpdateTexture(rgba, width, height);
    forall i | 0 <= i < rgba.Length {
      rgba[i] := later[i];
    }
  }

  /** Two frames handed over before a draw: the draw shows the second. */
  method TwoUpdatesOneDraw(renderer: Renderer, first: array<byte>, w1: Int32, h1: Int32,
                           second: array<byte>, width: Int32, height: Int32)
    requires width > 0 && height > 0
    modifies renderer
    ensures renderer.texture == Uploaded(second[..], width, height)
    ensures renderer.uploads == old(renderer.uploads) + 1
    ensures renderer.pendingPixelBuffer == null
  {
    renderer.UpdateTexture(first, w1, h1);
    renderer.UpdateTexture(second, width, height);
    renderer.DrawFrame();
  }

  /** A draw with nothing handed over since the last one leaves the texture
      as it was. */
  method DrawTwice(renderer: Renderer)
    modifies renderer
    ensures renderer.uploads <= old(renderer.uploads) + 1
    ensures renderer.pendingPixelBuffer == null || renderer.pendingWidth <= 0 || renderer.pendingHeight <= 0
  {
    renderer.DrawFrame();
    ghost var between := renderer.State();
    renderer.DrawFrame();
    SecondDrawUploadsNothing(between);
  }

  // ---------------------------------------------------------------------------
  // The quad

  /** A 2-component vertex attribute, over the integers (every value in the
      tables is -1, 0 or 1). */
  datatype Vec2 = Vec2(x: int, y: int)

  /** Components per vertex in both `glVertexAttribPointer` calls. */
  const COMPONENTS: nat := 2
  /** The vertex count of `glDrawArrays(GL_TRIANGLE_FAN, 0, 4)`. */
  const VERTEX_COUNT: nat := 4

  /** `squareCoords`: the clip-space corners, counter-clockwise from top left. */
  const SquareCoords: seq<int> := [-1, 1, -1, -1, 1, -1, 1, 1]

  /** `textureCoords`: one texture coordinate per corner. */
  const TextureCoords: seq<int> := [0, 0, 0, 1, 1, 1, 1, 0]

  /** The two tables read as vertices, in drawing order. */
  const ClipCorners: seq<Vec2> := [Vec2(-1, 1), Vec2(-1, -1), Vec2(1, -1), Vec2(1, 1)]
  const TexCorners: seq<Vec2> := [Vec2(0, 0), Vec2(0, 1), Vec2(1, 1), Vec2(1, 0)]

  /** A flat attribute array read two components at a time. */
  function Vertices(flat: seq<int>): (vs: seq<Vec2>)
    requires |flat| % 2 == 0
    ensures |vs| == |flat| / 2
    ensures forall i :: 0 <= i < |vs| ==> vs[i] == Vec2(flat[2 * i], flat[2 * i + 1])
  {
    if flat == [] then [] else [Vec2(flat[0], flat[1])] + Vertices(flat[2..])
  }

  /** The vertex shader's `vec2(aTexCoord.y, 1.0 - aTexCoord.x)`. */
  function Shade(t: Vec2): Vec2
  {
    Vec2(t.y, 1 - t.x)
  }

  /** The map back, taking a sampled coordinate to the attribute it came from. */
  function Unshade(s: Vec2): Vec2
  {
    Vec2(1 - s.y, s.x)
  }

  predicate InUnitSquare(t: Vec2)
  {
    0 <= t.x <= 1 && 0 <= t.y <= 1
  }

  predicate IsUnitCorner(t: Vec2)
  {
    (t.x == 0 || t.x == 1) && (t.y == 0 || t.y == 1)
  }

  /** Both attribute arrays describe exactly the vertices the draw call uses:
      the four corners of clip space and the four corners of the unit square. */
  lemma QuadMatchesDrawCount()
    ensures |SquareCoords| == COMPONENTS * VERTEX_COUNT
    ensures |TextureCoords| == COMPONENTS * VERTEX_COUNT
    ensures Vertices(SquareCoords) == ClipCorners && Vertices(TextureCoords) == TexCorners
  {
    assert SquareCoords[2..][2..][2..][2..] == [];
    assert TextureCoords[2..][2..][2..][2..] == [];
  }

  /** The shader is a bijection with inverse `Unshade`. */
  lemma ShadeInverse(t: Vec2)
    ensures Unshade(Shade(t)) == t && Shade(Unshade(t)) == t
  {
  }

  /** Four applications of the shader give the identity: it is a quarter turn
      of the unit square about its centre. */
  lemma ShadeQuarterTurn(t: Vec2)
    ensures Shade(Shade(Shade(Shade(t)))) == t
    ensures Shade(t) != t || (2 * t.x == 1 && 2 * t.y == 1)
  {
  }

  /** The shader keeps a coordinate inside the unit square, in both directions. */
  lemma ShadeKeepsUnitSquare(t: Vec2)
    ensures InUnitSquare(Shade(t)) <==> InUnitSquare(t)
  {
  }

  /** The texture table holds the four unit corners, each once, and the
      shader moves each vertex's coordinate to the next vertex's: a rotation
      of the table by one place, so a permutation of the corners that leaves
      none where it was. */
  lemma ShadePermutesCorners()
    ensures forall i, j :: 0 <= i < j < VERTEX_COUNT ==> TexCorners[i] != TexCorners[j]
    ensures forall i :: 0 <= i < VERTEX_COUNT ==> IsUnitCorner(TexCorners[i])
    ensures forall i :: 0 <= i < VERTEX_COUNT ==>
      Shade(TexCorners[i]) == TexCorners[(i + 1) % VERTEX_COUNT]
  {
    forall i | 0 <= i < VERTEX_COUNT
      ensures Shade(TexCorners[i]) == TexCorners[(i + 1) % VERTEX_COUNT]
    {
      if i == 0 {
      } else if i == 1 {
      } else if i == 2 {
      } else {
      }
    }
  }

  /** What each corner of the screen shows: the vertex at clip position `p`
      samples the texture at `((1 - p.y) / 2, (1 - p.x) / 2)`, so the frame
      appears with its axes exchanged. */
  lemma QuadSamplesTransposed(i: nat)
    requires i < VERTEX_COUNT
    ensures 2 * Shade(TexCorners[i]).x == 1 - ClipCorners[i].y
    ensures 2 * Shade(TexCorners[i]).y == 1 - ClipCorners[i].x
  {
  }
}
