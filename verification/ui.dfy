/** The badge styles of the shared UI kit that the list components choose between. */
module Ui {
  datatype BadgeVariant = Default | Destructive | Outline | Secondary
}
