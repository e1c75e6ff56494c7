# Dedalus 1.0 spectral core, modelled in Dafny

This project models the spectral-data core of Dedalus 1.0, a pseudo-spectral
fluid solver written in Python. The model covers five parts:

- **`FourierRepresentation`** (`FourierField`, `FourierProofs`). A data buffer
  carries a space tag, `'xspace'` or `'kspace'`. Reading the field in the other
  space transforms it lazily. Writing copies a block or a corner into the
  buffer. The forward transform is followed by three cleanups, in this order:
  the Orszag 2/3 dealiasing mask, zeroing of the Nyquist planes, and zeroing
  of modes below machine epsilon. The module also covers the spectral
  derivative `i·k·f` and `k²`.
- **The wavenumber grid and the dealiasing mask** (`Wavenumbers`).
  Wavenumbers are `k = 2π·m/L`, where `m` is the signed `fftfreq` index. The
  axis labels come from `'zyx'`. The representation's `trans` table is
  modelled too.
- **Hermitian symmetrisation** (`Hermitianize`, `HermitianProofs`,
  `HermitianParallel`). This is the serial recursion of `enforce_hermitian`:
  flip the upper half, then recurse into the Nyquist plane and the zero
  planes. It also covers `zero_nyquist`. For the parallel path the module
  models the peer-rank arithmetic and the slab-to-global mirror index mapping.
- **The physics layer** (`SoundSpeed`, `PhysicsLayout`):
  - the tabulated sound-speed bisection `cs2_at`;
  - the argument checks of `Physics.__init__`;
  - the Jacobian slot layout of `gradX`;
  - the dot product `XdotY`.
- **Slab decomposition** (`Parallelism`). This is `setup_parallel_objs`,
  with the communicator size passed in as `nproc`.

The model represents the data as follows:

- Arrays are finite maps from index sequences to complex numbers over a
  positive shape (`Grids`).
- Python exceptions are a `Result` type (`Results`).
- Reals are exact.
- The discrete Fourier transforms are an uninterpreted pair of functions
  (`Dft`). The model states what the code does with their output, and the
  two fftw/numpy strategies differ exactly as their normalisations do.

## Model

| member | source | states |
|---|---|---|
| `Grids.MirrorInBounds` | dedalus/data_objects/hermitianize.py:71-74 | The coordinatewise mirror `idx -> -idx (mod n)` stays in bounds and is an involution. |
| `Grids.HermitianSelfMirrorReal` | dedalus/data_objects/hermitianize.py:28-33 | In a Hermitian array every self-mirrored mode is real. This is why the recursion must make those modes real. |
| `Hermitianize.RealifyView` | dedalus/data_objects/hermitianize.py:66-69 | A one-element (sub)array keeps only its real part, and nothing outside it changes. |
| `Hermitianize.FlipSourceInBounds` | dedalus/data_objects/hermitianize.py:71-74 | Every entry the flip reads lies inside the array. This includes numpy's broadcast of the one-row source when the last extent is 5. |
| `Hermitianize.Flip` | dedalus/data_objects/hermitianize.py:70-74 | The flip writes only its target slice; every other entry is unchanged. |
| `Hermitianize.Enforce` | dedalus/data_objects/hermitianize.py:28-90 | The recursion on a sub-array never touches entries outside the sub-array. It succeeds whenever every remaining extent is even. |
| `Hermitianize.ZeroPlanes` | dedalus/data_objects/hermitianize.py:80-90 | The loop over the zero planes has the same frame and success conditions as the recursion. |
| `Hermitianize.EnforceHermitian` | dedalus/data_objects/hermitianize.py:28-90 | Serial `enforce_hermitian` returns an array of the same shape, and cannot fail when all extents are even. |
| `Hermitianize.ZeroNyquist` | dedalus/data_objects/hermitianize.py:93-103 | Every entry at index `n_i/2` on some axis becomes 0, and every other entry is unchanged. |
| `Hermitianize.ZeroNyquistFrom` | dedalus/data_objects/hermitianize.py:93-103 | The recursion over the remaining axes zeroes exactly the entries that sit at `n_i/2` on one of those axes. |
| `Hermitianize.ZeroNyquistIdempotent` | dedalus/data_objects/hermitianize.py:93-103 | Zeroing the Nyquist planes twice is the same as once. |
| `HermitianProofs.ViewMirrorProps` | dedalus/data_objects/hermitianize.py:71-74 | Within a sub-array the mirror stays in the sub-array and is an involution. |
| `HermitianProofs.UnitSizeMeansNoLive` | dedalus/data_objects/hermitianize.py:66 | With even extents, `data.size == 1` exactly when every axis has been fixed, so the base case is reached only at single entries. |
| `HermitianProofs.FlipSourceIsMirror` | dedalus/data_objects/hermitianize.py:71-74 | For an even last extent, the entry copied into each target is the target's mirror. |
| `HermitianProofs.FlipPairs` | dedalus/data_objects/hermitianize.py:70-74 | After the flip, each pair with all coordinates nonzero and off the Nyquist plane is conjugate-symmetric. |
| `HermitianProofs.FlipKeepsSym` | dedalus/data_objects/hermitianize.py:70-74 | The flip leaves an already-symmetric pair as it was. |
| `HermitianProofs.EnforceKeepsSymmetricPair` | dedalus/data_objects/hermitianize.py:28-90 | The whole recursion leaves an already-symmetric entry unchanged. |
| `HermitianProofs.SubViewKeepsSym` | dedalus/data_objects/hermitianize.py:78 | Recursing into the Nyquist plane preserves a symmetric pair of the enclosing array. |
| `HermitianProofs.ZeroPlanesKeepsSymmetricPair` | dedalus/data_objects/hermitianize.py:83-90 | Recursing into the zero planes preserves a symmetric pair. |
| `HermitianProofs.EnforceSymmetricInView` | dedalus/data_objects/hermitianize.py:28-90 | After the recursion on a sub-array with even extents, every entry of the sub-array is the conjugate of its mirror. |
| `HermitianProofs.ZeroPlanesSymmetric` | dedalus/data_objects/hermitianize.py:80-90 | The zero-plane loop completes the symmetry for entries with a zero coordinate. |
| `HermitianProofs.CoveredAfterNyquist` | dedalus/data_objects/hermitianize.py:70-78 | After the flip and the Nyquist-plane recursion, every entry not on a zero plane is symmetric. |
| `HermitianProofs.ZeroStepCovered` | dedalus/data_objects/hermitianize.py:83-90 | Each iteration of the zero-plane loop extends the symmetric region by one plane. |
| `HermitianProofs.EnforceHermitianSymmetric` | dedalus/data_objects/hermitianize.py:28-90 | With all extents even, the result is Hermitian: its inverse transform is real. |
| `HermitianProofs.EnforceHermitianIdempotent` | dedalus/data_objects/hermitianize.py:28-90 | A Hermitian array with even extents is returned unchanged. |
| `HermitianProofs.EnforceHermitianTwice` | dedalus/data_objects/hermitianize.py:28-90 | Applying `enforce_hermitian` twice is the same as once. |
| `HermitianProofs.SelfMirroredModesReal` | dedalus/data_objects/hermitianize.py:66-90 | Every mode whose coordinates are each 0 or `n/2` comes out real. |
| `HermitianProofs.EnforceHermitianSizeOne` | dedalus/data_objects/hermitianize.py:66-69 | A one-element array only loses its imaginary part. |
| `HermitianProofs.EnforceHermitianOddLastAxis` | dedalus/data_objects/hermitianize.py:73-74 | An odd last extent other than 1 and 5 makes the flip assignment fail with a broadcast error. |
| `HermitianProofs.FlipOverwritesUpperHalf` | dedalus/data_objects/hermitianize.py:70-74 | Each upper-half entry with all coordinates nonzero becomes the conjugate of its mirror; every other entry is unchanged. |
| `HermitianParallel.LeftPeer` | dedalus/data_objects/hermitianize.py:46 | The left peer `nproc-r-1` is a rank. |
| `HermitianParallel.RightPeer` | dedalus/data_objects/hermitianize.py:47 | The right peer `(nproc-r) % nproc` is a rank. |
| `HermitianParallel.PeersInvolutive` | dedalus/data_objects/hermitianize.py:46-47 | Both peer maps are involutions, so the peer of my peer is me. |
| `HermitianParallel.ExchangeBalanced` | dedalus/data_objects/hermitianize.py:49-52 | For every ordered pair of ranks, the messages sent equal the messages received. |
| `HermitianParallel.MirrorRowIsGlobalMirror` | dedalus/data_objects/hermitianize.py:44-62 | Local row `a` reads received row `sz-a`, which lies in the left block for `a > 0` and in the right block for `a = 0`. That row is the global mirror row. |
| `HermitianParallel.DownSliceStart` | dedalus/data_objects/hermitianize.py:59 | `recv[sz:0:-1]` on the `2L` received rows starts at `min(sz, 2L-1)` and so selects that many rows. |
| `HermitianParallel.RecvIndex` | dedalus/data_objects/hermitianize.py:59-62 | The received entry met by a local index lies in the slab. It is the paired row, with axes 1 and 2 mirrored and every further axis left as it is. |
| `HermitianParallel.ParallelStep` | dedalus/data_objects/hermitianize.py:44-63 | A slab of fewer than three axes raises `IndexError`: a one-axis slab has no `shape[1]` (line 44), and a two-axis slab cannot take `data[:,1:,1:]` (line 59). From three axes on, the in-place add broadcasts exactly when the clipped slice has as many rows as the slab or a single row. So the update succeeds exactly when `sz = shape[1]/nproc` is positive and equals the slab thickness `L`, or `L = 1`, or `sz = 1`. Otherwise it raises the broadcast `ValueError`. |
| `HermitianParallel.ParallelStepTrailingAxes` | dedalus/data_objects/hermitianize.py:59-62 | On a slab of four or more axes the step runs, but only axes 0 to 2 are mirrored. Each local entry meets the received entry with its own trailing coordinates. |
| `HermitianParallel.ThinSlabAligned` | dedalus/data_objects/hermitianize.py:59 | On a slab one row thick, every positive `sz` clips to the single row 1, which is the first row of `recvright`. |
| `HermitianParallel.ParallelStepBroadcastsRow` | dedalus/data_objects/hermitianize.py:59-63 | When `sz = 1` and the slab is thicker, the single selected row 1 of `recvleft` is broadcast: every local row is averaged with the conjugate mirror taken from that one row. |
| `HermitianParallel.ParallelStepCases` | dedalus/data_objects/hermitianize.py:44-63 | A one-row slab with `sz = 2` and a two-row slab with `sz = 1` both succeed, while a two-row slab with `sz = 3` raises. One- and two-axis slabs raise `IndexError`. |
| `HermitianParallel.ParallelEntry` | dedalus/data_objects/hermitianize.py:59-62 | The four slice updates read, for each local entry, the conjugate of its global mirror. |
| `HermitianParallel.ParallelStepIsGlobalAverage` | dedalus/data_objects/hermitianize.py:44-63 | If every rank holds its slab of one global array and `sz` equals the slab thickness (or the slab is one row thick), each rank computes its slab of `(G + conj(G[-k]))/2`. |
| `HermitianParallel.GlobalAverageHermitian` | dedalus/data_objects/hermitianize.py:58-63 | The averaged global array is Hermitian for any shape. |
| `HermitianParallel.GlobalAverageOfHermitian` | dedalus/data_objects/hermitianize.py:58-90 | On Hermitian input with even extents, both the parallel average and the serial recursion return the input. |
| `Wavenumbers.FreqIndex` | dedalus/data_objects/fourier_data.py:69 | The `fftfreq` index lies in `[-(S/2), (S-1)/2]`, is congruent to the position mod `S`, and is zero only at position 0. |
| `Wavenumbers.FreqIndexMirror` | dedalus/data_objects/fourier_data.py:69 | Mirroring a position negates its frequency, except at the Nyquist position of an even extent. |
| `Wavenumbers.Kny` | dedalus/data_objects/fourier_data.py:63 | `kny = pi·S/L`: times the length it gives `pi·S`, and it is positive for a non-empty axis. |
| `Wavenumbers.Wavenumber` | dedalus/data_objects/fourier_data.py:69 | `fftfreq(S)[c]·2·kny`. Its value is characterised by `Wavenumbers.WavenumberClosedForm`, and its mirror and zero by `FourierProofs.WavenumberMirror` and `FourierProofs.WavenumberZero`. |
| `Wavenumbers.WavenumberClosedForm` | dedalus/data_objects/fourier_data.py:63-69 | `fftfreq(S)*2*kny` is `2π·m/L`. |
| `Wavenumbers.IndexOf` | dedalus/data_objects/fourier_data.py:72 | The lookup finds the first occurrence, and raises `KeyError` exactly when the label is absent. |
| `Wavenumbers.LabelAxis` | dedalus/data_objects/fourier_data.py:72 | `k[name]` exists exactly for the labels the constructor zipped in, and names the axis holding that label. |
| `Wavenumbers.AxisLabels` | dedalus/data_objects/fourier_data.py:72 | `['z','y','x'][3-ndim:]` has at most three labels, and exactly `ndim` of them for up to three axes. Which label names which axis is `Wavenumbers.LabelsOfSmallFields` and `Wavenumbers.LabelsOfFourAxes`. |
| `Wavenumbers.LabelsOfSmallFields` | dedalus/data_objects/fourier_data.py:72 | With 1 to 3 axes, `'x'` is the last axis, `'y'` the one before, `'z'` the first of three, and no other label exists. |
| `Wavenumbers.LabelsOfFourAxes` | dedalus/data_objects/fourier_data.py:72 | With four axes only `'x'` exists, and it labels axis 0. |
| `Wavenumbers.TransLabelToAxis` | dedalus/data_objects/fourier_data.py:59 | The label half of `trans` maps `x`, `y`, `z` to 0, 1, 2, and nothing else. |
| `Wavenumbers.TransAxisToLabel` | dedalus/data_objects/fourier_data.py:60 | The axis half of `trans`, as written, only ever yields `'x'` or `'y'`. |
| `Wavenumbers.TransCollision` | dedalus/data_objects/fourier_data.py:59-60 | As written, axis 2 maps to `'y'` like axis 1, so no axis maps to `'z'` and the round trip sends 2 to 1. |
| `Wavenumbers.TransAxisToLabelFixed` | dedalus/data_objects/fourier_data.py:60 | The corrected axis half is defined exactly on 0, 1, 2. |
| `Wavenumbers.TransFixedRoundTrip` | dedalus/data_objects/fourier_data.py:59-60 | The corrected axis half and the label half are inverse bijections. |
| `Wavenumbers.BeyondIff` | dedalus/data_objects/fourier_data.py:163-164 | On its own axis `abs(k) > 2/3*kny` is the integer test `3·abs(m) > S`. |
| `Wavenumbers.NyquistBeyond` | dedalus/data_objects/fourier_data.py:163-167 | The Nyquist mode of an even extent is always dealiased. |
| `Wavenumbers.BeyondMirror` | dedalus/data_objects/fourier_data.py:163-167 | The dealiasing test is the same at a position and at its mirror. |
| `Wavenumbers.MaskTerms` | dedalus/data_objects/fourier_data.py:163-167 | The mask raises `KeyError` exactly when `'x'` or `'y'` is not a label. |
| `Wavenumbers.MaskTermsOfSmallFields` | dedalus/data_objects/fourier_data.py:163-167 | For 2 and 3 axes the mask compares every axis with its own Nyquist wavenumber; 1 and 4 axes raise. |
| `Wavenumbers.MaskedIff` | dedalus/data_objects/fourier_data.py:163-167 | A mode is dealiased exactly when some axis has `3·abs(m) > S`. |
| `Wavenumbers.MaskedMirror` | dedalus/data_objects/fourier_data.py:163-170 | A mode is dealiased exactly when its mirror is. |
| `FourierField.MethodOf` | dedalus/data_objects/fourier_data.py:112-120 | `'fftw'` and `'numpy'` select their strategies; any other name installs none. |
| `FourierField.Construct` | dedalus/data_objects/fourier_data.py:44-75 | A new representation holds zeros in `'kspace'`, with the strategy and the dealiasing the arguments name. |
| `FourierField.InvSize` | dedalus/data_objects/fourier_data.py:130 | The fftw normalisation factor is positive and is the reciprocal of `data.size`. |
| `FourierField.Fft` | dedalus/data_objects/fourier_data.py:128-137 | The forward transform fails only when no strategy was installed, and keeps the layout and the index set. |
| `FourierField.Ifft` | dedalus/data_objects/fourier_data.py:132-141 | Both inverse strategies drop the imaginary part, so x-space data is real. |
| `FourierField.Forward` | dedalus/data_objects/fourier_data.py:143-150 | `forward` ends in `'kspace'` with the layout unchanged. |
| `FourierField.ToKSpace` | dedalus/data_objects/fourier_data.py:169 | The dummy `self['kspace']` read leaves the field in `'kspace'` with the layout unchanged. It is the identity on spectral data (`FourierProofs.CleanupsInKSpace`). The same read appears at lines 194 and 206. |
| `FourierField.MaskOut` | dedalus/data_objects/fourier_data.py:170 | `self.data[dmask] = 0.` keeps the buffer's shape. On spectral data it is all that `dealias_23` does (`FourierProofs.CleanupsInKSpace`). The modes it zeroes are `Wavenumbers.MaskedIff`, and it is idempotent (`FourierProofs.MaskOutIdempotent`). |
| `FourierField.Dealias23` | dedalus/data_objects/fourier_data.py:159-170 | `dealias_23` ends in `'kspace'` with the layout unchanged. |
| `FourierField.ZeroNyquist` | dedalus/data_objects/fourier_data.py:191-201 | `zero_nyquist` ends in `'kspace'` with the layout unchanged. |
| `FourierField.ZeroUnderEps` | dedalus/data_objects/fourier_data.py:203-207 | `zero_under_eps` ends in `'kspace'` with the layout unchanged. |
| `FourierField.ZeroSmall` | dedalus/data_objects/fourier_data.py:207 | `self.data[abs(self.data) < eps] = 0.` keeps the buffer's shape. Its fixed points are `FourierProofs.CleanFixed`, and it keeps Hermitian symmetry (`FourierProofs.ZeroSmallKeepsHermitian`). |
| `FourierField.Backward` | dedalus/data_objects/fourier_data.py:152-157 | `backward` ends in `'xspace'` with every entry real. |
| `FourierField.Get` | dedalus/data_objects/fourier_data.py:77-90 | `self[space]` returns the data in the space asked for. Any other token raises `KeyError` unless it equals the current tag. |
| `FourierField.CopyIn` | dedalus/data_objects/fourier_data.py:97-102 | The copy keeps the array's shape. |
| `FourierField.Set` | dedalus/data_objects/fourier_data.py:92-105 | The field keeps its layout and ends tagged with the space written, or with `'kspace'` when dealiasing is on. |
| `FourierField.Deriv` | dedalus/data_objects/fourier_data.py:173-178 | Outside `'xspace'` the field is untouched, and `deriv` fails exactly for a label the field does not have. |
| `FourierField.K2` | dedalus/data_objects/fourier_data.py:180-189 | `k2` has one entry per mode. |
| `FourierProofs.CleanupsInKSpace` | dedalus/data_objects/fourier_data.py:163-207 | In `'kspace'` the dummy `self['kspace']` calls do nothing, and each cleanup is exactly its mask on the data. |
| `FourierProofs.ForwardResult` | dedalus/data_objects/fourier_data.py:143-150 | `forward` fails exactly when no strategy is installed or the mask has no labels. Otherwise each entry is the transform, zeroed if dealiased, at a Nyquist index or below eps. The numpy strategy rebinds the buffer and fftw does not. |
| `FourierProofs.Dealias23Idempotent` | dedalus/data_objects/fourier_data.py:159-170 | Dealiasing twice is the same as once. |
| `FourierProofs.MaskOutIdempotent` | dedalus/data_objects/fourier_data.py:170 | Zeroing a masked set twice is the same as once. |
| `FourierProofs.ZeroNyquistIdempotent` | dedalus/data_objects/fourier_data.py:191-201 | `zero_nyquist` twice is the same as once. |
| `FourierProofs.ZeroUnderEpsIdempotent` | dedalus/data_objects/fourier_data.py:203-207 | `zero_under_eps` twice is the same as once. |
| `FourierProofs.ForwardIsClean` | dedalus/data_objects/fourier_data.py:143-150 | The output of `forward` is a fixed point of each of its three cleanups. |
| `FourierProofs.CleanEntries` | dedalus/data_objects/fourier_data.py:148-150 | Each cleanup leaves the forward output's data unchanged. |
| `FourierProofs.CleanFixed` | dedalus/data_objects/fourier_data.py:148-150 | Data already clean at every entry is a fixed point of all three cleanups. |
| `FourierProofs.StrategyScaling` | dedalus/data_objects/fourier_data.py:128-141 | Spectral data of the fftw strategy is `1/size` times numpy's. Numpy's inverse is `1/size` times fftw's. |
| `FourierProofs.BackwardDealiasesFirst` | dedalus/data_objects/fourier_data.py:152-157 | On spectral data, `backward` dealiases before transforming. A mask that cannot be built raises `KeyError`, and a missing strategy raises `AttributeError`. Otherwise each entry is the real part of the inverse of the masked data: unscaled with fftw in the same buffer, scaled by `1/size` with numpy in a new buffer. |
| `FourierProofs.GetTwice` | dedalus/data_objects/fourier_data.py:77-90 | Reading the same space twice transforms at most once. |
| `FourierProofs.GetRoundTrip` | dedalus/data_objects/fourier_data.py:77-90 | Reading `'xspace'` then `'kspace'` is `forward` after `backward`. |
| `FourierProofs.CopyInBlockReadBack` | dedalus/data_objects/fourier_data.py:97-99 | A smaller array lands at offset `n/4+1` on each axis and reads back there; everything outside the block is unchanged. |
| `FourierProofs.CopyInRejects` | dedalus/data_objects/fourier_data.py:97-102 | The copy fails exactly when some axis of the incoming block does not fit or, for the corner copy, is too short to broadcast. |
| `FourierProofs.CopyInCornerReadBack` | dedalus/data_objects/fourier_data.py:100-102 | An array at least as large is cut to its leading corner, which becomes the data. |
| `FourierProofs.SetPlain` | dedalus/data_objects/fourier_data.py:92-105 | Without dealiasing, `self[space] = d` copies, tags `space` and keeps the buffer. |
| `FourierProofs.SetKSpace` | dedalus/data_objects/fourier_data.py:92-105 | Writing `'kspace'` with dealiasing on yields the masked copy. |
| `FourierProofs.SetOtherSpaceForwards` | dedalus/data_objects/fourier_data.py:104-105 | Writing any other space with dealiasing on forward-transforms the copy, because `dealias_23` switches to `'kspace'`. |
| `FourierProofs.DerivFromXSpace` | dedalus/data_objects/fourier_data.py:173-178 | From `'xspace'`, `deriv` first runs `forward`. |
| `FourierProofs.WavenumberMirror` | dedalus/data_objects/fourier_data.py:69 | The wavenumber at a mirrored position is negated, except at the Nyquist position. |
| `FourierProofs.WavenumberZero` | dedalus/data_objects/fourier_data.py:69 | The wavenumber is zero exactly at position 0. |
| `FourierProofs.DerivEntryMirror` | dedalus/data_objects/fourier_data.py:177 | On Hermitian data with zero Nyquist planes, `i·k·f` at a mirror is the conjugate of `i·k·f`. |
| `FourierProofs.DerivKeepsHermitian` | dedalus/data_objects/fourier_data.py:173-178 | On such data, the derivative is Hermitian, so it is real in x space. |
| `FourierProofs.KSquaredZero` | dedalus/data_objects/fourier_data.py:186 | `k_j**2 >= 0`, and it is zero exactly at position 0 on axis `j`. |
| `FourierProofs.SumSquaresZero` | dedalus/data_objects/fourier_data.py:184-186 | The summed `k**2` is nonnegative and is zero exactly when every summed coordinate is 0. |
| `FourierProofs.K2Properties` | dedalus/data_objects/fourier_data.py:180-189 | `k2` is zero only at the mean mode. With `no_zero` that mode is 1 and every entry is positive. |
| `FourierProofs.MaskOutKeepsHermitian` | dedalus/data_objects/fourier_data.py:163-170 | Dealiasing preserves Hermitian symmetry. |
| `FourierProofs.ZeroSmallKeepsHermitian` | dedalus/data_objects/fourier_data.py:207 | Zeroing entries below eps preserves Hermitian symmetry. |
| `FourierProofs.ZeroNyquistKeepsHermitian` | dedalus/data_objects/fourier_data.py:191-201 | With even extents, zeroing the Nyquist planes preserves Hermitian symmetry. |
| `FourierProofs.NyquistMirror` | dedalus/data_objects/fourier_data.py:199 | With even extents, an index is on a Nyquist plane exactly when its mirror is. |
| `FourierProofs.ZeroNyquistOddAxis` | dedalus/data_objects/fourier_data.py:195-201 | On an odd extent the zeroed position `n/2` is an ordinary mode, and zeroing it breaks Hermitian symmetry. |
| `FourierProofs.ZeroNyquistOddAxisExample` | dedalus/data_objects/fourier_data.py:195-201 | A concrete input: `[c0, c1, conj(c1)]` with real `c0` and nonzero `c1` is Hermitian, and `zero_nyquist` leaves it non-Hermitian. |
| `Results.PyAt` | dedalus/physics/physics.py:952-957 | Python indexing: `s[i]` for `0 <= i < len`, `s[len+i]` for negative `i` down to `-len`, and `IndexError` exactly outside that range. |
| `SoundSpeed.InitCs2` | dedalus/physics/physics.py:932-934 | `init_cs2` stores both lists as given, with nothing tying their lengths together. A short values list surfaces as the `IndexError` of `Results.PyAt` in `SoundSpeed.Cs2At`. |
| `SoundSpeed.CeilHalf` | dedalus/physics/physics.py:947-950 | `int(ceil(d/2.))` is the least `r` with `d <= 2r`. |
| `SoundSpeed.Step` | dedalus/physics/physics.py:945-950 | Each branch keeps `0 <= lower <= i <= upper <= len`. Unless `a` equals the probed entry, the bracket shrinks or `i` leaves `lower`. An equal entry moves nothing. |
| `SoundSpeed.Search` | dedalus/physics/physics.py:944-957 | For a value that is not an entry, the loop returns and never reads past the table. |
| `SoundSpeed.StepBrackets` | dedalus/physics/physics.py:945-957 | Each pass keeps `lower` below `a` (once it moved) and `upper` above `a`. An exit then returns an entry adjacent to `a`. |
| `SoundSpeed.SearchBrackets` | dedalus/physics/physics.py:944-957 | On an ascending table the returned entry is one of the two bracketing `a`. |
| `SoundSpeed.BracketsAtEnds` | dedalus/physics/physics.py:952-957 | Bracketing entries mean `values[-1]` exactly above the table and `values[0]` below it. |
| `SoundSpeed.LookupBrackets` | dedalus/physics/physics.py:936-957 | `cs2_at` brackets `a`. It returns `values[-1]` exactly when `a` exceeds every entry, and `values[0]` when `a` is below every entry. |
| `SoundSpeed.NotNearest` | dedalus/physics/physics.py:936-957 | The docstring's "nearest" fails: on `[0, 10, 11]` with `a = 9` the lookup returns entry 0. |
| `SoundSpeed.RunReturnsSearch` | dedalus/physics/physics.py:944-957 | For a value that is not an entry, the loop returns within `2·len+1` passes. |
| `SoundSpeed.RunForMore` | dedalus/physics/physics.py:944-957 | Once the loop has returned, further passes change nothing. |
| `SoundSpeed.NeverReturns` | dedalus/physics/physics.py:945-957 | When `a` equals the first entry of a table of two or more, the loop never returns. |
| `SoundSpeed.Cs2At` | dedalus/physics/physics.py:936-957 | The loop as written returns the result of the search, with Python indexing of the values. An empty table raises `IndexError`. |
| `SoundSpeed.HitBracketed` | dedalus/physics/physics.py:945-951 | If `a` is an entry and the probe misses it, neither exit fires and the bracket invariant holds. |
| `SoundSpeed.FixedAgrees` | dedalus/physics/physics.py:944-957 | Whenever the loop as written returns, after any number of passes, it returns what the corrected loop returns, for entries and non-entries alike. |
| `SoundSpeed.FixedSearchOffEntries` | dedalus/physics/physics.py:944-957 | For a value that is not an entry, the corrected loop is the loop as written. |
| `SoundSpeed.FixedSearchHits` | dedalus/physics/physics.py:944-950 | On an ascending table holding `a`, the corrected loop stops at the entry equal to `a`. |
| `SoundSpeed.Cs2AtFixed` | dedalus/physics/physics.py:936-957 | The corrected loop returns on every non-empty table. On every input, entry or not, it agrees with the loop as written after any number of passes that end in a return. On an ascending table it returns the entry equal to `a`. An empty table raises `IndexError`. |
| `PhysicsLayout.InitPhysics` | dedalus/physics/physics.py:70-81 | An unlisted representation raises `ValueError`. A missing or empty length becomes `2π` on every axis. `ndim` is `len(shape)`. |
| `PhysicsLayout.AllowableRepresentations` | dedalus/physics/physics.py:49 | The base class rejects every representation, and each hydro class accepts only its own. |
| `PhysicsLayout.DefaultBoxIntegerWavenumbers` | dedalus/physics/physics.py:74-77 | In the default `2π` box the wavenumbers are the integer frequency indices. |
| `PhysicsLayout.Trans` | dedalus/physics/physics.py:364 | `_trans` is defined exactly on directions 0, 1, 2 and raises `KeyError` elsewhere. |
| `PhysicsLayout.TransInjective` | dedalus/physics/physics.py:364 | The physics table is the corrected representation table, and it is injective. |
| `PhysicsLayout.SlotBijection` | dedalus/physics/physics.py:143 | `N*i+j` is below `ncomp*N` and decodes back to `(i, j)`. |
| `PhysicsLayout.SlotOnto` | dedalus/physics/physics.py:157-159 | Every slot below `ncomp*N` is `N*i+j` for one pair. |
| `PhysicsLayout.GradX` | dedalus/physics/physics.py:141-159 | `gradX` succeeds exactly when every direction has a label and every slot exists. Slot `N*i+j` then holds `dX_i/dx_j`, and exactly the slots below `ncomp*N` are written. |
| `PhysicsLayout.JacobianDecodes` | dedalus/physics/physics.py:157-159 | Every written slot is read back by division and remainder. |
| `PhysicsLayout.XdotY` | dedalus/physics/physics.py:293-297 | Unequal component counts raise `ValueError`. Otherwise each output entry is the sum of the component products. |
| `PhysicsLayout.AccumulateInto` | dedalus/physics/physics.py:297 | One `output[space] += v` reads the field in `space`, adds in place and writes back. A space that is neither the tag nor a known one raises `KeyError`. With dealiasing on, the write-back moves the tag to `'kspace'`; otherwise the tag is `space`. |
| `PhysicsLayout.SameShapeWriteBack` | dedalus/data_objects/fourier_data.py:97-102 | Writing back an array of the buffer's own shape leaves exactly that array in the buffer. |
| `PhysicsLayout.AccumulatePlain` | dedalus/physics/physics.py:297 | Without dealiasing, a pass on a field already in `space` succeeds and is the entrywise sum. |
| `PhysicsLayout.AccumulateMasked` | dedalus/physics/physics.py:297 | With dealiasing in `'kspace'`, a pass succeeds exactly when the 2/3 mask can be built, and raises `KeyError` otherwise. Each entry it writes is zero where the mask applies and the sum elsewhere. |
| `PhysicsLayout.StepPlain` | dedalus/physics/physics.py:296-297 | A plain pass extends a partial dot product of `k` components to `k+1`. |
| `PhysicsLayout.StepMasked` | dedalus/physics/physics.py:296-297 | A dealiased spectral pass extends a masked partial dot product of `k` components to `k+1`. |
| `PhysicsLayout.PassFacts` | dedalus/physics/physics.py:296-297 | One pass carries what `k` passes established over to `k+1`. An unknown space raises `KeyError`, a plain pass succeeds, and a dealiased spectral pass succeeds exactly when the mask can be built. |
| `PhysicsLayout.PassesProgress` | dedalus/physics/physics.py:296-297 | Whatever the remaining passes return satisfies the progress at `ncomp`, and without dealiasing in the field's own space they succeed. |
| `PhysicsLayout.PassesMaskedIff` | dedalus/physics/physics.py:296-297 | With dealiasing in `'kspace'`, the remaining passes succeed exactly when the mask can be built. |
| `PhysicsLayout.XdotYInto` | dedalus/physics/physics.py:293-297 | `XdotY` written through the output field: the count check, `output.zero()`, then one `output[space] += X[i][space]*Y[i][space]` per component. The result keeps the output's layout. What it computes is `PhysicsLayout.XdotYWriteBack`. |
| `PhysicsLayout.XdotYWriteBack` | dedalus/physics/physics.py:293-297 | The dot product written through the output field. Unequal counts raise `ValueError`, and with at least one component an unknown space raises `KeyError`. Without dealiasing in the field's own space the buffer holds the sum of products. With dealiasing in `'kspace'` it succeeds exactly when the mask can be built, and then holds the masked sum. After any pass the tag is `'kspace'` when dealiasing is on and `space` otherwise. |
| `PhysicsLayout.DotSymmetric` | dedalus/physics/physics.py:296-297 | `XdotY(X, Y)` equals `XdotY(Y, X)`. |
| `PhysicsLayout.DotOfReal` | dedalus/physics/physics.py:296-297 | On real data the dot product is real, and equals the plain sum of products. |
| `Parallelism.Py2Div` | dedalus/utils/parallelism.py:49 | Python 2 `/` by the rank count keeps the number's type. It floors an int and divides a float exactly. |
| `Parallelism.SetupParallelObjs` | dedalus/utils/parallelism.py:47-51 | The local extent is the floor of `global_shape[0]/nproc`. The local length is the exact quotient for a float length and the floor for an int length. All other entries and both arities are unchanged. An empty tuple raises `IndexError`. |
| `Parallelism.IntLengthsFloor` | dedalus/samples/test_baryons.py:41-43 | With the sample's int lengths `(1000,)*3` on three ranks, each slab has shape `[10, 32, 32]` and lengths `[333, 1000, 1000]`, all ints. |
| `Parallelism.SlabsCoverRows` | dedalus/utils/parallelism.py:47 | The slabs cover the leading axis exactly when `nproc` divides it; otherwise the remainder rows are dropped. |
| `Parallelism.SpacingPreserved` | dedalus/utils/parallelism.py:47-49 | When `nproc` divides the leading extent, a rank's grid spacing is the global one exactly when the length is a float, or an int that `nproc` divides. |
| `Parallelism.CubeSlabsPassHermitianCheck` | dedalus/utils/parallelism.py:47 | A cube split into slabs satisfies the slab-thickness condition of the parallel Hermitian step. |

## Left out

- The discrete Fourier transforms themselves (`fftw3` plans, `scipy.fftpack`) are
  an uninterpreted `Dft` parameter. Nothing is claimed about their values, so
  `backward(forward(x)) == x` is not stated.
- Floating point. Reals are exact. The dealiasing test at the boundary
  `3·abs(m) == S` and the eps comparison may round differently in float64.
  The value of `pi` is the exact float64 constant.
- The element type. `dtype` is always complex128; x-space data is complex
  with a zero imaginary part.
- Partial state after an exception. When a call raises part-way (for
  example, the transform has run and `dealias_23` then raises `KeyError`), the
  model returns only the error, not the half-updated object.
- `FourierField.Set`: an incoming array of a different rank is not modelled;
  its numpy broadcasting rules are out of scope.
- `FourierField.Dealias23`: for five or more axes, the code builds
  mis-shaped masks whose numpy broadcasting is not modelled. The model covers
  the axis counts that either work (2, 3) or raise `KeyError` (1, 4).
- `FourierField.Construct`: requires positive lengths. The constructor does
  not check them, and a zero length divides by zero in `kny`.
- `FourierProofs.K2Properties`: stated for at most three axes, where every
  axis has a wavenumber label.
- `SoundSpeed.Cs2At`: requires that `a` is not a table entry, because for
  some entries the loop as written never returns (`SoundSpeed.NeverReturns`).
- `init_cs2` only stores its two lists (`SoundSpeed.InitCs2`). Nothing ties
  their lengths together, and a short values list surfaces as the
  `IndexError` of the Python-indexed read.
- The MPI exchange (`isend`/`recv`/`Waitall`, hermitianize.py:49-54) and the
  module-level communicator (parallelism.py:24-29) are concurrency and global
  state. Only the peer arithmetic, the message balance and the index mapping
  are modelled; `nproc` and the rank are parameters.
- `FourierShearRepresentation` (fourier_data.py:210-260) is a time-dependent
  shearing-box transform; it is not part of this model.
- `PhysicsLayout.GradX`: models which derivative goes into which output
  slot. The derivative values are `FourierField.Deriv`, and the two are not
  composed through the output field's `__setitem__`.
- `PhysicsLayout.XdotY`: the sum on grids, with the components taken as
  already read in `space`. The write-back through the output field is
  `PhysicsLayout.XdotYWriteBack`. The transforms that the component reads may
  trigger are `FourierField.Get`.
- `PhysicsLayout.XdotYWriteBack`: the output field is taken to be a
  `FourierRepresentation`, whose `__getitem__` and `__setitem__` are the
  representation's (`ScalarField` is not part of this model), and
  `output.zero()` is taken to fill the buffer with zeros and keep the tag.
  When a pass starts in the other space it transforms the running sum, and
  with dealiasing on every write-back also transforms. Because the transform
  is the uninterpreted `Dft`, the buffer's value is then not characterised
  beyond its layout and tag.
- `Physics.__init__` after the checks (`create_field_classes`, `aux_eqns`),
  the equation right-hand sides, `verbose` printing and the warning printed
  by `cs2_at` are outside the modelled core.

## Findings

| source | as written | input that shows it | evidently intended | confidence | as-written member | corrected member |
|---|---|---|---|---|---|---|
| dedalus/physics/physics.py:944-957 | When `a` equals the probed entry, neither branch moves a bound, and the exit test fails while `lower < upper-1`. | An ascending table of two or more entries with `a` equal to its first entry (e.g. `[1.0, 2.0]`, `a = 1.0`): the loop spins forever. | An exact hit returns that entry's value. | not executed | `SoundSpeed.NeverReturns` | `SoundSpeed.Cs2AtFixed` |
| dedalus/data_objects/fourier_data.py:59-60 | The axis half of `trans` maps `2` to `'y'`. | `trans[2] == trans[1] == 'y'`, so `trans[trans[2]] == 1` and no axis maps to `'z'`. | `2: 'z'`, as in the label half and as in `Physics._trans`. | not executed | `Wavenumbers.TransCollision` | `Wavenumbers.TransAxisToLabelFixed` |

## Notes on the code

These describe the code's behaviour; the model follows the code in each case.

- The parallel path of `enforce_hermitian` averages each entry with the
  conjugate of its mirror (`(M + conj(M[-k]))/2`). The serial path instead
  overwrites the upper half with the conjugate of the lower half. The two
  agree on Hermitian input (`HermitianParallel.GlobalAverageOfHermitian`).
- `hermitianize.py:26` imports `com_sys` from `parallelism.py`, which defines
  only `comm` and `setup_parallel_objs`. That import therefore fails when the
  module is loaded, and none of its functions can be called. The model
  describes `enforce_hermitian` and `zero_nyquist` as if the import had
  succeeded. The parallel branch has the communicator replaced by
  parameters.
- The fftw strategy normalises the forward transform by `1/size`; the numpy
  strategy normalises the inverse. Spectral data therefore differs by a
  factor of `size` between strategies (`FourierProofs.StrategyScaling`).
- The numpy transforms assign a new array to `self.data`. The fftw ones work
  in place, so `__setitem__`'s care to keep the buffer holds only for fftw
  (`storage` in `FourierField.Field`).
- On an axis of odd extent, `zero_nyquist` zeroes position `n/2`. That
  position is an ordinary mode, not a Nyquist mode, so zeroing it breaks
  Hermitian symmetry (`FourierProofs.ZeroNyquistOddAxis`, with the concrete
  input `FourierProofs.ZeroNyquistOddAxisExample`).
- `enforce_hermitian` on an odd last extent other than 1 or 5 raises a
  broadcast error (`HermitianProofs.EnforceHermitianOddLastAxis`).
- The four cosmology classes (physics.py:737, 808, 879, 1031) define no
  `allowable_representations`. They inherit the empty list of physics.py:49,
  and their initialisers reach the check at physics.py:70-72. So every
  construction of them raises `ValueError`, including those in the samples
  (test_linear.py:38, test_nonlinear.py:19, test_zeldovich.py:6,
  test_baryons.py:44), and `cs2_at` belongs to classes that cannot be
  built (the `BaseAllowable` clause of `PhysicsLayout.AllowableRepresentations`).
- `setup_parallel_objs` documents its lengths as reals, but the one caller
  (test_baryons.py:42-43) passes ints, which Python 2 floor-divides
  (`Parallelism.IntLengthsFloor`).
- Despite the `cs2_at` docstring, the value returned is a bracketing entry,
  not necessarily the nearest one (`SoundSpeed.NotNearest`).
